# Local PTO tracker: a verified model of the store and the date helpers

The tracker keeps time-off events on a calendar and the hours each fiscal year
allots to four buckets (`vpp`, `vacation`, `sick`, `personal`). This project models
two of its files:

- `src/composables/usePtoStore.js` is the shared store: the settings, the
  per-fiscal-year balances and the event list. It covers:
  - the event normalizer, which fills in the id, type, hours and colour, and
    recomputes the end of a timed event from its start and hours;
  - fiscal years;
  - completing a year's balance;
  - the usage totals of the current fiscal year;
  - the event mutations and the settings setters.
- `src/utils.js` has the date helpers: `toLocalInputValue`, `parseDateInput`,
  `toDateOnlyString` and `startOfDay`.

Module layout:

| module | what it holds |
|---|---|
| `Wrappers` | `Option` |
| `Decimal` | `String(n)`, `padStart(2, '0')` and `Number` on digit strings |
| `Calendar` | a civil calendar: `setMinutes` carries and `new Date(y, m, d)` with its overflow and two-digit-year rules |
| `DateText` | the `YYYY-MM-DD` and `YYYY-MM-DDTHH:MM` forms |
| `Utils` | the helpers of `src/utils.js` |
| `PtoModel` | the store's pure logic, as functions and lemmas |
| `Store` | the store itself: class `PtoStore`, whose methods update `settings`, `yearlyBalances` and `events` in place, and the three loops of the module: the `forEach` of `ensureBalanceForYear` (in `PtoStore.EnsureBalanceForYear`), the `forEach` of `usageStats` and the `findIndex` of `upsertEvent` |
| `MockData` | the sample events the store starts with |

Two things outside the code's reach are parameters:

- `new Date(string)` becomes `parse: string -> Option<DateTime>`, with `None` for an Invalid Date.
- The current time becomes `now`.

A JavaScript `Date` is modelled by the local calendar fields it reports. Hours
and months are `real`. A `Number(...)` that is not finite is `None`.

What the model shows about the source:

- A timed event's end is its start plus its hours, rounded to whole minutes;
  any end the event came with is ignored. When the end falls in a four-digit
  year, within the range of a JavaScript `Date`, the end text reads back as
  that time.
- Normalizing is idempotent, so reloading never changes an event.
- Comparing fiscal years as strings is the same as comparing them as numbers.
- `ensureBalanceForYear` gives every bucket a number and touches no other year.
  Running it a second time changes nothing.
- `parseDateInput` accepts `0026-01-01` as 1926 and `2026-02-30` as 2 March.
- An event without an id gets `String(length + 1)`. After a deletion that id can
  belong to an existing event, so `upsertEvent` replaces that event instead of
  adding one (`UpsertWithoutIdCanReplace`).

Some behaviour of the code that is easy to expect otherwise, and that the model
follows:

- Event types are not looked up in a registry; a missing type is `vacation`.
- All-day events are not coerced to date-only strings.
- Balance keys that are not buckets are kept, not removed.
- There are no operations to add or remove buckets, and no backup import or export.
- Usage is counted for the five event types of `EVENT_TYPES`.

## Model

| member | source | states |
|---|---|---|
| Decimal.NatToString | src/composables/usePtoStore.js:56 | `String(n)` of a natural number is a non-empty digit string, starts with `0` only for 0, and has one digit exactly below 10 |
| Decimal.NatToStringRoundTrip | src/composables/usePtoStore.js:56 | reading the digits of `String(n)` back gives `n` |
| Decimal.NatToStringInjective | src/composables/usePtoStore.js:56 | distinct indexes give distinct fallback ids |
| Decimal.IntToString | src/composables/usePtoStore.js:94 | `String(i)` is non-empty, all digits for non-negative `i`, and starts with `-` exactly when `i` is negative |
| Decimal.IntToStringInjective | src/composables/usePtoStore.js:177 | `String(a) == String(b)` if and only if `a == b`, so fiscal years compared as strings compare as numbers |
| Decimal.PadStart2 | src/composables/usePtoStore.js:26-29 | `padStart(2, '0')` gives length 2 (or the input's length), ends with the input, and pads with zeros only |
| Decimal.Pad2Exact | src/utils.js:4-7 | below 100 the padded field is exactly two digits whose value is the number |
| Decimal.FourDigits | src/utils.js:3 | a year from 1000 to 9999 prints as four digits reading back as the year |
| Calendar.AddMinutes | src/composables/usePtoStore.js:48-49 | `setMinutes(getMinutes() + n)` gives the time exactly `n` minutes later, counted on an absolute minute scale across day, month and year carries, with the seconds unchanged |
| Calendar.AddDaysNumber | src/composables/usePtoStore.js:49 | moving `k` days moves the day's number, counted from 1 January of year 0, by exactly `k` |
| Calendar.DayNumberInjective | src/composables/usePtoStore.js:49 | two days with the same number are the same day |
| Calendar.AbsoluteMinuteInjective | src/composables/usePtoStore.js:49 | two times on the same absolute minute agree in date, hour and minute |
| Calendar.AddMinutesAdd | src/composables/usePtoStore.js:49 | adding `a` minutes and then `b` minutes is adding `a + b` minutes, across day, month and year carries |
| Calendar.AddMinutesInverse | src/composables/usePtoStore.js:49 | going `n` minutes forward and `n` back returns to the same time |
| Calendar.AddDaysAdd | src/utils.js:22 | moving by `a` days and then `b` days is moving by `a + b` days |
| Calendar.AddDaysFromFirst | src/utils.js:22 | counting `day - 1` days on from the first of a month lands on `day` when it is in the month |
| Calendar.JsDate | src/utils.js:21-22 | `new Date(year, monthIndex, day)` is at midnight, and its day is `day - 1` days after the first of the month the index names, counted into later or earlier years, with years 0..99 taken as 1900 plus the year |
| Calendar.JsDateTwoDigitYear | src/utils.js:21-22 | a year from 0 to 99 with an in-range month and day builds that day in 1900 plus the year |
| Calendar.JsDateDayOverflow | src/utils.js:21-22 | a day past the end of its month builds the matching day of the next month |
| Calendar.JsDateExact | src/utils.js:21-22 | `new Date(y, m, d)` with a year outside 0..99 and an in-range month and day builds exactly that day at midnight |
| DateText.FormatDateOnlyFields | src/utils.js:50-53 | for any year the text is `String(year)`, a dash, two digits reading as the 1-based month, a dash and two digits reading as the day |
| DateText.FormatLocalDateTimeFields | src/composables/usePtoStore.js:24-31 | for any year the text is the date-only text, `T`, two digits reading as the hour, `:` and two digits reading as the minute |
| DateText.FormatDateOnlyShape | src/utils.js:50-53 | for a four-digit year the `YYYY-MM-DD` text matches the date-only pattern and its fields are the year, 1-based month and day |
| DateText.FormatLocalDateTimeRoundTrip | src/composables/usePtoStore.js:24-31 | for a four-digit year the text has the `YYYY-MM-DDTHH:MM` shape and reads back as the same time with seconds dropped |
| DateText.FormatLocalDateTimeInjective | src/composables/usePtoStore.js:24-31 | two times that print the same agree in date, hour and minute |
| Utils.ToLocalInputValue | src/utils.js:1-9 | an Invalid Date prints `NaN-NaN-NaNTNaN:NaN` |
| Utils.ToLocalInputValueFormat | src/utils.js:1-9 | a valid date with a four-digit year prints in `YYYY-MM-DDTHH:MM` form, reading back as its date, hour and minute |
| Utils.ParseDateInput | src/utils.js:11-27 | falsy input gives `null`; a `Date` passes through (`null` if invalid); a date-only string gives a midnight; any other non-empty string gives what `new Date(value)` gives, `null` when invalid |
| Utils.ParseDateInputDateOnly | src/utils.js:20-23 | a date-only string naming a real day of a year from 100 on gives midnight of exactly that day |
| Utils.ParseDateInputTwoDigitYear | src/utils.js:20-23 | a date-only string with a year below 100 gives that day in 1900 plus the year |
| Utils.ParseDateInputDayOverflow | src/utils.js:20-23 | a day past the end of its month rolls over into the next month instead of being rejected |
| Utils.ToDateOnlyString | src/utils.js:29-54 | falsy input gives `''`; a date-only string is returned as is; a string with a `YYYY-MM-DDT` prefix gives that prefix's date; any other value gives `''` exactly when `new Date(value)` is invalid |
| Utils.ToDateOnlyStringFallback | src/utils.js:45-53 | any other value that parses is written as `String(year)`, then the 1-based month and the day in two digits each; for a four-digit year the text is `YYYY-MM-DD` with the date's own fields |
| Utils.ToDateOnlyStringIdempotent | src/utils.js:29-54 | the result is `''` or a date-only string (for four-digit years), and applying the function to it again changes nothing |
| Utils.DateOnlyRoundTrip | src/utils.js:45-53 | formatting a valid date as `YYYY-MM-DD` and parsing it back gives its midnight, the same as `startOfDay` of the date |
| Utils.StartOfDay | src/utils.js:56-64 | any result is at midnight; an Invalid Date that is not a date-only string gives an invalid result |
| Utils.StartOfDayAgreesOnDateOnly | src/utils.js:57-60 | on a date-only string `startOfDay` and `parseDateInput` build the same date |
| PtoModel.PtoColor | src/composables/usePtoStore.js:16-22 | a colour exists exactly for the five event types and is non-empty |
| PtoModel.DefaultSettingsInRange | src/composables/usePtoStore.js:7-13 | the default settings already satisfy every setter's bounds, name a known theme, and size exactly the four bucket keys |
| PtoModel.RoundHalfUp | src/composables/usePtoStore.js:49 | `Math.round(x)` is the integer within half of `x`, halves rounded up |
| PtoModel.NormalizeEvent | src/composables/usePtoStore.js:33-65 | the result has a non-empty id, colour and type and numeric hours, and keeps the title, start, all-day flag and other extended properties |
| PtoModel.NormalizeEventDefaults | src/composables/usePtoStore.js:34-62 | type defaults to `vacation`; hours to 7.5 all-day and 1 timed; the id to `String(index + 1)`; the colour to the type's colour, then `#1a73e8` |
| PtoModel.NormalizeEventEnd | src/composables/usePtoStore.js:43-52 | a timed event whose start parses gets the end start plus its hours in local date-time form; every other event keeps its end |
| PtoModel.EndTime | src/composables/usePtoStore.js:48-49 | the end is exactly the event's hours, rounded to whole minutes, after the start, with the start's seconds |
| PtoModel.EndTimeReadsBack | src/composables/usePtoStore.js:48-50 | the computed end text reads back as the end time, and going back the event's minutes from it gives the start |
| PtoModel.NormalizeEventIdempotent | src/composables/usePtoStore.js:33-65 | normalizing a normalized event, at any index, changes nothing |
| PtoModel.NormalizeAll | src/composables/usePtoStore.js:192-194 | every event is normalized, keeps its title and start, and an id-less event at position `i` gets id `String(i + 1)` |
| PtoModel.NormalizeAllAppend | src/composables/usePtoStore.js:196-198 | appending with `addEvent` gives what `setEvents` makes of the list with the event appended |
| PtoModel.FiscalYear | src/composables/usePtoStore.js:86-91 | the fiscal year is the calendar year from the start month on, and the year before it earlier in the year |
| PtoModel.CurrentFy | src/composables/usePtoStore.js:159 | the current fiscal year's text is its decimal digits, reading back as the year (a leading `-` for a negative year) |
| PtoModel.FiscalYearSpan | src/composables/usePtoStore.js:86-91 | a date is in fiscal year `y` if and only if it is in year `y` from the start month on, or in year `y + 1` before it |
| PtoModel.FiscalYearMonotone | src/composables/usePtoStore.js:86-91 | a later month never falls in an earlier fiscal year |
| PtoModel.MergeSettings | src/composables/usePtoStore.js:220-229 | given fields overwrite, missing fields stay, and bucket sizes merge key by key with the new sizes winning |
| PtoModel.MergeSettingsIdempotent | src/composables/usePtoStore.js:220-229 | applying the same partial settings twice is applying them once |
| PtoModel.ClampStartMonth | src/composables/usePtoStore.js:231-235 | the month is clamped to 0..11 and a non-finite value gives 0 |
| PtoModel.ClampBucketHours | src/composables/usePtoStore.js:246-247 | the hours are at least 0, kept when non-negative, and a non-finite value gives 0 |
| PtoModel.ClampHoursPerDay | src/composables/usePtoStore.js:259-260 | the hours are at least 0.25, kept from 0.25 on, and a non-finite value gives 7.5 |
| PtoModel.NormalizeThemeMode | src/composables/usePtoStore.js:269 | the mode is one of the three theme modes, the given one when valid and `system` otherwise |
| PtoModel.CloneSizes | src/composables/usePtoStore.js:82-84 | a new year's balance has exactly the bucket sizes' keys and their values |
| PtoModel.FillBuckets | src/composables/usePtoStore.js:99-103 | after the `forEach` the balance's keys are its old keys plus the visited bucket keys |
| PtoModel.FillBucketsStep | src/composables/usePtoStore.js:99-103 | one turn of the `forEach` gives a bucket that is not a number its size or 0 and changes nothing else |
| PtoModel.ReconciledYear | src/composables/usePtoStore.js:95-103 | the completed balance has the old (or copied) keys plus the four bucket keys, each of them a number |
| PtoModel.EnsuredBalances | src/composables/usePtoStore.js:93-106 | the balances gain at most the year's key, and every bucket of that year holds a number |
| PtoModel.EnsureBalanceCompletes | src/composables/usePtoStore.js:93-106 | afterwards every bucket holds a number; existing numbers and non-bucket entries are kept; the rest get their size or 0 |
| PtoModel.EnsureBalanceNewYear | src/composables/usePtoStore.js:95-97 | a new year starts as a copy of the bucket sizes, with missing buckets at 0 |
| PtoModel.EnsureBalanceOtherYears | src/composables/usePtoStore.js:93-106 | every other fiscal year keeps its balance or its absence |
| PtoModel.EnsureBalanceIdempotent | src/composables/usePtoStore.js:93-106 | ensuring the same year twice is ensuring it once |
| PtoModel.WithBucketSize | src/composables/usePtoStore.js:249-255 | after a bucket size change the year's balance exists, holds the new size for that bucket, and every bucket is a number |
| PtoModel.BucketSizeEffect | src/composables/usePtoStore.js:249-255 | a new bucket size becomes that bucket's balance in the current fiscal year only; other buckets and years are as ensuring left them |
| PtoModel.TypeTotal | src/composables/usePtoStore.js:172-187 | a type that is not an event type uses nothing, and when no event has negative hours the total is not negative |
| PtoModel.UsageSpec | src/composables/usePtoStore.js:165-190 | the totals have exactly the five event types as keys, all 0 for no events |
| PtoModel.UsageInStep | src/composables/usePtoStore.js:172-187 | one more event adds its hours to its own type's total, when it starts in the fiscal year and has a known type, and leaves every other total as it was |
| PtoModel.TypeTotalAppend | src/composables/usePtoStore.js:172-187 | the usage of a list is the sum of the usage of its parts |
| PtoModel.TypeTotalSkips | src/composables/usePtoStore.js:173-186 | an event without a parseable start, from another fiscal year, or of another type adds nothing wherever it stands |
| PtoModel.IndexOfId | src/composables/usePtoStore.js:202 | the first position with the id, or -1 exactly when no event has it |
| PtoModel.Upserted | src/composables/usePtoStore.js:200-210 | the event replaces the first event with its id, all others unchanged, or is appended when none has it |
| PtoModel.UpsertedIdempotent | src/composables/usePtoStore.js:200-210 | upserting the same normalized event twice is upserting it once |
| PtoModel.UpsertWithoutIdCanReplace | src/composables/usePtoStore.js:200-205 | with events `2` and `3` left, an id-less event gets id `3` and replaces event `3` |
| PtoModel.WithoutId | src/composables/usePtoStore.js:213 | no remaining event has the deleted id |
| PtoModel.WithoutIdMembers | src/composables/usePtoStore.js:213 | an event remains if and only if it was in the list with another id |
| PtoModel.WithoutIdAppend | src/composables/usePtoStore.js:213 | filtering keeps order: filtering a concatenation filters each part |
| PtoModel.WithoutIdAbsent | src/composables/usePtoStore.js:213 | deleting an id no event has leaves the list unchanged |
| PtoModel.WithoutIdIdempotent | src/composables/usePtoStore.js:213 | deleting the same id twice is deleting it once |
| Store.UsageStats | src/composables/usePtoStore.js:165-190 | the totals loop computes, for every event type, the hours of the events of that type starting in the current fiscal year |
| Store.FindIndexById | src/composables/usePtoStore.js:202 | the search loop returns the first position with the id, or -1 |
| Store.PtoStore.constructor | src/composables/usePtoStore.js:67-77 | default settings, no balances, and the sample events normalized |
| Store.PtoStore.EnsureBalanceForYear | src/composables/usePtoStore.js:93-106 | the in-place update leaves the balances as `EnsuredBalances` describes, returns the year's balance, and keeps settings and events |
| Store.PtoStore.ActiveBalance | src/composables/usePtoStore.js:159-163 | the current fiscal year's balance, ensured |
| Store.PtoStore.SetEvents | src/composables/usePtoStore.js:192-194 | the list becomes the raw events normalized by position |
| Store.PtoStore.AddEvent | src/composables/usePtoStore.js:196-198 | the event, normalized with the list's length, is appended; nothing else changes |
| Store.PtoStore.UpsertEvent | src/composables/usePtoStore.js:200-210 | the list becomes `Upserted` of the old list and the normalized event |
| Store.PtoStore.DeleteEvent | src/composables/usePtoStore.js:212-214 | the list becomes the old list without the id, still all normalized |
| Store.PtoStore.ClearEvents | src/composables/usePtoStore.js:216-218 | the list becomes empty; settings and balances are kept |
| Store.PtoStore.UpdateSettings | src/composables/usePtoStore.js:220-229 | the settings become the merge; balances and events are kept |
| Store.PtoStore.UpdateFiscalYearStartMonth | src/composables/usePtoStore.js:231-239 | the clamped month is stored, then the balance of the fiscal year `now` falls in is ensured under it |
| Store.PtoStore.UpdateBucketSize | src/composables/usePtoStore.js:241-256 | an unknown bucket changes nothing; a known one gets the clamped size in the settings and in the current year's ensured balance |
| Store.PtoStore.UpdateHoursPerDay | src/composables/usePtoStore.js:258-262 | the clamped hours, at least 0.25, are stored; nothing else changes |
| Store.PtoStore.UpdateShowHolidayInTracker | src/composables/usePtoStore.js:264-266 | the flag is stored; nothing else changes |
| Store.PtoStore.UpdateThemeMode | src/composables/usePtoStore.js:268-271 | the mode, normalized to a valid theme, is stored; nothing else changes |
| MockData.MockEventIds | src/mockEvents.js:1-93 | the sample ids are `1` to `8`, what the normalizer would give each event from its position, so the store starts with distinct ids |
| MockData.StandupEnd | src/mockEvents.js:25-36 | the 09:30 half-hour stand-up gets an end without seconds that reads back as 10:00 the same day |
| MockData.AllDayEndKept | src/mockEvents.js:13-24 | the all-day vacation keeps its date-only end |

## Left out

- `save`, `load` and `startAutoSave` are left out. They read and write `localStorage` and install a Vue `watch`. `load`'s settings merge is the same as `updateSettings` (`MergeSettings`), and its final step is `ensureBalanceForYear`. The JSON parsing and the fallback to the mock events on a parse error are not modelled.
- Vue reactivity is not modelled. `computed` values (`currentFy`, `activeBalance`, `usageStats`) are plain operations evaluated on demand.
- `src/services/fileSystemSync.js` is not part of this model.
- Time zones, daylight saving time and milliseconds are not modelled. A `Date` is its local calendar fields, and `setMinutes` moves through a calendar without DST gaps.
- `new Date(string)` for general strings is the parameter `parse`. Neither its accepted formats nor the local-versus-UTC reading of ISO strings are modelled. `new Date(null)` (the epoch) is not one of the modelled inputs.
- IEEE floating point is not modelled: hours and months are exact reals. A `Number(...)` coercion is modelled only by its outcome, a finite number or `None`.
- In `usageStats` and `PTO_COLORS[type]`, keys inherited from `Object.prototype` (such as `constructor`) are not modelled. Only the five event types are lookup keys.
- Explicit `undefined` values in a partial settings object, and settings keys other than the five known ones, are not modelled.
- A stored year entry that is not an object (`null` read back from storage) is not modelled. Such an entry is replaced by `ensureBalanceForYear`.
- Inputs to the date helpers that are neither strings nor `Date` objects (numbers such as timestamps) are not modelled.
- Top-level event properties other than id, title, start, end, allDay, color and extendedProps are not modelled.
- Calendar.AddMinutes, Calendar.JsDate: the range of a JavaScript `Date` is not modelled. A time more than 8.64e15 ms from 1970 is an Invalid Date, whose fields print as `NaN`; the model's calendar has no bounds, so its results there are dates the source would not produce. Only dates that far out are affected.
- Store.PtoStore.EnsureBalanceForYear: the source updates the year's balance object in place, one bucket at a time. The model updates a copy in the loop and stores it once after the loop. Nothing else can observe the balance in between, so the final state is the same.
- Utils.ToLocalInputValueFormat: stated only for four-digit years. Other years print with another number of characters, and the text does not have the fixed-width shape.
- DateText.FormatLocalDateTimeRoundTrip: stated only for four-digit years, for the same reason.

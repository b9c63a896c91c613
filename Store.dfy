/** The shared state record `{settings, yearlyBalances, events}` of
    `src/composables/usePtoStore.js` and the operations that update it in place,
    with the loops of the module (the `forEach` of `ensureBalanceForYear`, the
    one of `usageStats` and the `findIndex` of `upsertEvent`) as methods proved
    against their specifications in `PtoModel`.
    "Now" and `new Date(string)` are parameters. */
module Store {
  import opened Wrappers
  import opened Decimal
  import opened Calendar
  import opened PtoModel
  import MockData

  /** `usageStats`: starts every event type at 0 and adds the hours of each event
      whose start lies in the current fiscal year, comparing fiscal years as
      strings the way the source does. */
  method UsageStats(events: seq<Event>, startMonth: real, now: DateTime, parse: string -> Option<DateTime>)
    returns (totals: map<string, real>)
    ensures totals == UsageSpec(events, startMonth, now, parse)
  {
    var fiscalYear := CurrentFy(startMonth, now);
    var fy := FiscalYear(startMonth, now);
    totals := map k | k in EventTypes :: 0.0;
    var i := 0;
    while i < |events|
      invariant 0 <= i <= |events|
      invariant totals == UsageIn(events[..i], startMonth, fy, parse)
    {
      var e := events[i];
      assert events[..i + 1] == events[..i] + [e];
      UsageInStep(events[..i], e, startMonth, fy, parse);
      if Truthy(e.start) {
        var t := parse(e.start.value);
        // An unparseable start gives `String(NaN)`, which is never a year's text.
        if t.Some? {
          IntToStringInjective(FiscalYear(startMonth, t.value), fy);
          if IntToString(FiscalYear(startMonth, t.value)) == fiscalYear {
            if e.props.Some? && e.props.value.kind.Some? && e.props.value.kind.value in totals {
              var kind := e.props.value.kind.value;
              totals := totals[kind := totals[kind] + HoursOrZero(e)];
            }
          }
        }
      }
      i := i + 1;
    }
    assert events[..|events|] == events;
  }

  /** The `findIndex` of `upsertEvent`. */
  method FindIndexById(events: seq<Event>, id: Option<string>) returns (index: int)
    ensures index == IndexOfId(events, id)
  {
    index := 0;
    while index < |events|
      invariant 0 <= index <= |events|
      invariant forall j :: 0 <= j < index ==> events[j].id != id
    {
      if events[index].id == id {
        return;
      }
      index := index + 1;
    }
    index := -1;
  }

  class PtoStore {
    var settings: Settings
    var yearlyBalances: YearlyBalances
    var events: seq<Event>

    /** Every event in the store has been through the normalizer. */
    ghost predicate Valid()
      reads this
    {
      forall i :: 0 <= i < |events| ==> IsNormalized(events[i])
    }

    /** The initial state: default settings, no balances, the sample events
        normalized. */
    constructor (parse: string -> Option<DateTime>)
      ensures Valid()
      ensures settings == DefaultSettings && yearlyBalances == map[]
      ensures events == NormalizeAll(MockData.MockEvents, parse)
    {
      settings := DefaultSettings;
      yearlyBalances := map[];
      events := NormalizeAll(MockData.MockEvents, parse);
    }

    /** `ensureBalanceForYear(fiscalYear)`: creates the year's balance as a copy of
        the bucket sizes when missing, then gives every bucket key that is not a
        number its size, or 0. */
    method EnsureBalanceForYear(fiscalYear: int) returns (balance: Balance)
      requires Valid()
      modifies this
      ensures Valid()
      ensures settings == old(settings) && events == old(events)
      ensures yearlyBalances == EnsuredBalances(old(yearlyBalances), fiscalYear, settings.bucketSizes)
      ensures balance == yearlyBalances[YearKey(fiscalYear)]
    {
      var key := IntToString(fiscalYear);
      if key !in yearlyBalances {
        yearlyBalances := yearlyBalances[key := CloneSizes(settings.bucketSizes)];
      }
      var sizes := settings.bucketSizes;
      var current := yearlyBalances[key];
      ghost var base := current;
      ghost var created := yearlyBalances;
      var i := 0;
      FillBucketsNone(base, sizes);
      assert BucketKeys[..0] == [];
      while i < |BucketKeys|
        invariant 0 <= i <= |BucketKeys|
        invariant current == FillBuckets(base, sizes, BucketKeys[..i])
        invariant yearlyBalances == created && settings == old(settings) && events == old(events)
      {
        var bucketKey := BucketKeys[i];
        BucketKeysDistinct(i);
        FillBucketsStep(base, sizes, BucketKeys[..i], bucketKey);
        if !IsNumeric(current, bucketKey) {
          current := current[bucketKey := Some(SizeOr0(sizes, bucketKey))];
        }
        i := i + 1;
      }
      assert BucketKeys[..i] == BucketKeys;
      yearlyBalances := yearlyBalances[key := current];
      balance := yearlyBalances[key];
    }

    /** `activeBalance`: the current fiscal year's balance, ensured. */
    method ActiveBalance(now: DateTime) returns (balance: Balance)
      requires Valid()
      modifies this
      ensures Valid()
      ensures settings == old(settings) && events == old(events)
      ensures yearlyBalances == EnsuredBalances(old(yearlyBalances), FiscalYear(settings.fiscalYearStartMonth, now), settings.bucketSizes)
      ensures balance == yearlyBalances[CurrentFy(settings.fiscalYearStartMonth, now)]
    {
      balance := EnsureBalanceForYear(FiscalYear(settings.fiscalYearStartMonth, now));
    }

    /** `setEvents(events)`: replaces the list, each event normalized with its
        position. */
    method SetEvents(raw: seq<Event>, parse: string -> Option<DateTime>)
      modifies this
      ensures Valid()
      ensures settings == old(settings) && yearlyBalances == old(yearlyBalances)
      ensures events == NormalizeAll(raw, parse)
    {
      events := NormalizeAll(raw, parse);
    }

    /** `addEvent(eventItem)`: appends the event, normalized with the list's length. */
    method AddEvent(e: Event, parse: string -> Option<DateTime>)
      requires Valid()
      modifies this
      ensures Valid()
      ensures settings == old(settings) && yearlyBalances == old(yearlyBalances)
      ensures events == old(events) + [NormalizeEvent(e, |old(events)|, parse)]
    {
      events := events + [NormalizeEvent(e, |events|, parse)];
    }

    /** `upsertEvent(eventItem)`: normalizes the event with the list's length, then
        replaces the first event with the same id, or appends. */
    method UpsertEvent(e: Event, parse: string -> Option<DateTime>)
      requires Valid()
      modifies this
      ensures Valid()
      ensures settings == old(settings) && yearlyBalances == old(yearlyBalances)
      ensures events == Upserted(old(events), NormalizeEvent(e, |old(events)|, parse))
    {
      var normalized := NormalizeEvent(e, |events|, parse);
      var existingIndex := FindIndexById(events, normalized.id);
      if existingIndex >= 0 {
        events := events[existingIndex := normalized];
        return;
      }
      events := events + [normalized];
    }

    /** `deleteEvent(eventId)`: keeps, in order, every event with another id. */
    method DeleteEvent(id: string)
      requires Valid()
      modifies this
      ensures Valid()
      ensures settings == old(settings) && yearlyBalances == old(yearlyBalances)
      ensures events == WithoutId(old(events), id)
    {
      WithoutIdMembers(events, id);
      events := WithoutId(events, id);
      assert forall j :: 0 <= j < |events| ==> events[j] in old(events);
    }

    /** `clearEvents()`. */
    method ClearEvents()
      modifies this
      ensures Valid()
      ensures settings == old(settings) && yearlyBalances == old(yearlyBalances)
      ensures events == []
    {
      events := [];
    }

    /** `updateSettings(nextSettings)`: merges without validating or ensuring any
        balance. */
    method UpdateSettings(patch: SettingsPatch)
      requires Valid()
      modifies this
      ensures Valid()
      ensures settings == MergeSettings(old(settings), patch)
      ensures yearlyBalances == old(yearlyBalances) && events == old(events)
    {
      settings := MergeSettings(settings, patch);
    }

    /** `updateFiscalYearStartMonth(month)`: stores the clamped month, then
        ensures the balance of the fiscal year `now` falls in under it. */
    method UpdateFiscalYearStartMonth(month: Option<real>, now: DateTime)
      requires Valid()
      modifies this
      ensures Valid()
      ensures settings == old(settings).(fiscalYearStartMonth := ClampStartMonth(month))
      ensures 0.0 <= settings.fiscalYearStartMonth <= 11.0
      ensures yearlyBalances == EnsuredBalances(old(yearlyBalances), FiscalYear(settings.fiscalYearStartMonth, now), settings.bucketSizes)
      ensures events == old(events)
    {
      settings := settings.(fiscalYearStartMonth := ClampStartMonth(month));
      var _ := EnsureBalanceForYear(FiscalYear(settings.fiscalYearStartMonth, now));
    }

    /** `updateBucketSize(bucket, hours)`: for a known bucket, stores the clamped
        hours as its size and as its balance in the current fiscal year; an
        unknown bucket changes nothing. */
    method UpdateBucketSize(bucket: string, hours: Option<real>, now: DateTime)
      requires Valid()
      modifies this
      ensures Valid()
      ensures events == old(events)
      ensures bucket !in BucketKeys ==> settings == old(settings) && yearlyBalances == old(yearlyBalances)
      ensures bucket in BucketKeys ==>
        && settings == old(settings).(bucketSizes := old(settings).bucketSizes[bucket := ClampBucketHours(hours)])
        && yearlyBalances == WithBucketSize(old(yearlyBalances), FiscalYear(settings.fiscalYearStartMonth, now),
                                            settings.bucketSizes, bucket, ClampBucketHours(hours))
    {
      if bucket !in BucketKeys {
        return;
      }
      var normalizedHours := ClampBucketHours(hours);
      settings := settings.(bucketSizes := settings.bucketSizes[bucket := normalizedHours]);
      var fiscalYear := FiscalYear(settings.fiscalYearStartMonth, now);
      var balance := EnsureBalanceForYear(fiscalYear);
      yearlyBalances := yearlyBalances[YearKey(fiscalYear) := balance[bucket := Some(normalizedHours)]];
    }

    /** `updateHoursPerDay(hours)`. */
    method UpdateHoursPerDay(hours: Option<real>)
      requires Valid()
      modifies this
      ensures Valid()
      ensures settings == old(settings).(hoursPerDay := ClampHoursPerDay(hours))
      ensures settings.hoursPerDay >= 0.25
      ensures yearlyBalances == old(yearlyBalances) && events == old(events)
    {
      settings := settings.(hoursPerDay := ClampHoursPerDay(hours));
    }

    /** `updateShowHolidayInTracker(value)`; `value` is already `Boolean(value)`. */
    method UpdateShowHolidayInTracker(value: bool)
      requires Valid()
      modifies this
      ensures Valid()
      ensures settings == old(settings).(showHolidayInTracker := value)
      ensures yearlyBalances == old(yearlyBalances) && events == old(events)
    {
      settings := settings.(showHolidayInTracker := value);
    }

    /** `updateThemeMode(mode)`. */
    method UpdateThemeMode(mode: string)
      requires Valid()
      modifies this
      ensures Valid()
      ensures settings == old(settings).(themeMode := NormalizeThemeMode(mode))
      ensures settings.themeMode in ThemeModes
      ensures yearlyBalances == old(yearlyBalances) && events == old(events)
    {
      settings := settings.(themeMode := NormalizeThemeMode(mode));
    }
  }
}

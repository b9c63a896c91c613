/** The sample events the store starts with (`src/mockEvents.js`), and what the
    normalizer makes of two of them. */
module MockData {
  import opened Wrappers
  import opened Calendar
  import opened PtoModel
  import DateText

  function Sample(id: string, title: string, start: string, end: Option<string>, allDay: bool,
                  kind: string, hours: real, color: string): Event
  {
    Event(Some(id), Some(title), Some(start), end, allDay, Some(color), Some(Props(Some(kind), Some(hours), map[])))
  }

  const MockEvents: seq<Event> := [
    Sample("1", "Company Holiday", "2026-02-16", None, true, "holiday", 7.5, "#F9AB00"),
    Sample("2", "PTO - Alex Kim", "2026-02-24", Some("2026-02-27"), true, "vacation", 22.5, "#2980B9"),
    Sample("3", "Team Standup", "2026-02-13T09:30:00", Some("2026-02-13T10:00:00"), false, "sick", 0.5, "#C0392B"),
    Sample("4", "1:1 - Manager", "2026-02-13T14:00:00", Some("2026-02-13T14:30:00"), false, "personal", 0.5, "#27AE60"),
    Sample("5", "PTO - Priya Nair", "2026-03-02", Some("2026-03-04"), true, "vpp", 15.0, "#8E44AD"),
    Sample("6", "Design Review", "2026-03-05T11:00:00", Some("2026-03-05T12:00:00"), false, "vacation", 1.0, "#2980B9"),
    Sample("7", "PTO - Jordan Lee", "2026-07-14", Some("2026-07-18"), true, "vacation", 30.0, "#2980B9"),
    Sample("8", "Planning Session", "2026-07-15T13:00:00", Some("2026-07-15T15:00:00"), false, "sick", 2.0, "#C0392B")
  ]

  /** The sample ids are `1` to `8`, the very text the normalizer would give each
      event from its position, so the store starts with eight distinct ids. */
  lemma MockEventIds(parse: string -> Option<DateTime>)
    ensures forall i :: 0 <= i < |MockEvents| ==> NormalizeAll(MockEvents, parse)[i].id == Some(Decimal.NatToString(i + 1))
    ensures forall i, j :: 0 <= i < j < |MockEvents| ==> NormalizeAll(MockEvents, parse)[i].id != NormalizeAll(MockEvents, parse)[j].id
  {
    var r := NormalizeAll(MockEvents, parse);
    forall i | 0 <= i < |MockEvents|
      ensures r[i].id == Some(Decimal.NatToString(i + 1))
    {
      MockIdAt(i);
      assert r[i] == NormalizeEvent(MockEvents[i], i, parse);
    }
    forall i, j | 0 <= i < j < |MockEvents|
      ensures r[i].id != r[j].id
    {
      Decimal.NatToStringInjective(i + 1, j + 1);
    }
  }

  lemma MockIdAt(i: nat)
    requires i < |MockEvents|
    ensures MockEvents[i].id == Some(Decimal.NatToString(i + 1))
  {
    var n := i + 1;
    assert Decimal.NatToString(n) == [Decimal.DigitChar(n)];
    if i == 0 { assert MockEvents[i].id == Some("1"); }
    else if i == 1 { assert MockEvents[i].id == Some("2"); }
    else if i == 2 { assert MockEvents[i].id == Some("3"); }
    else if i == 3 { assert MockEvents[i].id == Some("4"); }
    else if i == 4 { assert MockEvents[i].id == Some("5"); }
    else if i == 5 { assert MockEvents[i].id == Some("6"); }
    else if i == 6 { assert MockEvents[i].id == Some("7"); }
    else { assert MockEvents[i].id == Some("8"); }
  }

  /** The half-hour stand-up starting at 09:30 is given an end in local
      date-time form, without seconds, that reads back as 10:00 the same day, in
      place of the `10:00:00` it came with. */
  lemma StandupEnd(index: nat, parse: string -> Option<DateTime>)
    requires parse("2026-02-13T09:30:00") == Some(Stamp(Day(2026, 1, 13), 9, 30, 0))
    ensures var r := NormalizeEvent(MockEvents[2], index, parse);
      && r.end.Some?
      && DateText.IsLocalDateTime(r.end.value)
      && DateText.ReadLocalDateTime(r.end.value) == Some(Stamp(Day(2026, 1, 13), 10, 0, 0))
  {
    StandupEndTime();
    NormalizeEventEnd(MockEvents[2], index, parse);
    DateText.FormatLocalDateTimeRoundTrip(Stamp(Day(2026, 1, 13), 10, 0, 0));
  }

  lemma StandupEndTime()
    ensures EndTime(Stamp(Day(2026, 1, 13), 9, 30, 0), 0.5) == Stamp(Day(2026, 1, 13), 10, 0, 0)
  {
    assert RoundHalfUp(0.5 * 60.0) == 30;
    assert AddDays(Day(2026, 1, 13), 0) == Day(2026, 1, 13);
  }

  /** The all-day vacation keeps its date-only end, whatever the parser does. */
  lemma AllDayEndKept(index: nat, parse: string -> Option<DateTime>)
    ensures NormalizeEvent(MockEvents[1], index, parse).end == Some("2026-02-27")
  {
  }
}

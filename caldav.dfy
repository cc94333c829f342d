/**
 * The calendar helpers: resolving a calendar by display name, building the
 * iCalendar text of one event (sections 3.4 and 3.6.1 of RFC 5545, UTC
 * DATE-TIME values of section 3.3.5), searching a calendar's events by
 * SUMMARY, saving an event and deleting the first event with a given UID.
 *
 * The CalDAV library and the server behind it are not modelled. A calendar
 * is an object holding the events the server stores, in the order the
 * server lists them; a search (ranged or not) is the server's answer, a
 * selection over those stored events or a raised error.
 */
module CalDav {
  import opened Options
  import opened Strings

  // ---------------------------------------------------------------------
  // Date-times and their UTC text form.

  /** A Python `datetime`: its calendar fields, microseconds and an optional UTC offset. */
  datatype DateTime = DateTime(
    year: nat, month: nat, day: nat,
    hour: nat, minute: nat, second: nat,
    microsecond: nat, utcOffsetMinutes: Option<int>)

  predicate IsLeapYear(year: nat)
  {
    year % 4 == 0 && (year % 100 != 0 || year % 400 == 0)
  }

  function DaysInMonth(year: nat, month: nat): nat
    requires 1 <= month <= 12
  {
    if month == 2 then (if IsLeapYear(year) then 29 else 28)
    else if month == 4 || month == 6 || month == 9 || month == 11 then 30
    else 31
  }

  /** The range checks a `datetime` performs when it is constructed. */
  predicate ValidDateTime(dt: DateTime)
  {
    && 1 <= dt.year <= 9999
    && 1 <= dt.month <= 12
    && 1 <= dt.day <= DaysInMonth(dt.year, dt.month)
    && dt.hour < 24 && dt.minute < 60 && dt.second < 60
    && dt.microsecond < 1000000
  }

  /**
   * `strftime('%Y%m%dT%H%M%SZ')`: a four-digit year, two digits for each
   * other field, a literal `T` and a literal `Z`. The `Z` is appended
   * whatever the zone; microseconds are dropped. `StampFields` shows
   * which field each group of digits spells.
   */
  function Stamp(dt: DateTime): (s: string)
    ensures |s| == 16
    ensures s[8] == 'T' && s[15] == 'Z'
    ensures forall i | 0 <= i < 15 && i != 8 :: IsDigit(s[i])
  {
    Digits(dt.year, 4) + Digits(dt.month, 2) + Digits(dt.day, 2) + "T"
      + Digits(dt.hour, 2) + Digits(dt.minute, 2) + Digits(dt.second, 2) + "Z"
  }

  /** A group of zero-padded digits inside a string spells the number it was written from. */
  lemma GroupValue(s: string, lo: nat, n: nat, width: nat)
    requires lo + width <= |s| && s[lo..lo + width] == Digits(n, width) && n < Pow10(width)
    ensures DecimalValue(s[lo..lo + width]) == n
  {
    DigitsValue(n, width);
  }

  /** Where each field's digits stand in the stamp. */
  lemma StampGroups(dt: DateTime)
    ensures var s := Stamp(dt);
      && s[0..4] == Digits(dt.year, 4) && s[4..6] == Digits(dt.month, 2) && s[6..8] == Digits(dt.day, 2)
      && s[9..11] == Digits(dt.hour, 2) && s[11..13] == Digits(dt.minute, 2) && s[13..15] == Digits(dt.second, 2)
  {
    var date := Digits(dt.year, 4) + Digits(dt.month, 2) + Digits(dt.day, 2);
    var time := Digits(dt.hour, 2) + Digits(dt.minute, 2) + Digits(dt.second, 2);
    assert Stamp(dt) == date + "T" + time + "Z";
  }

  /**
   * Read as decimal numbers, the digit groups of a valid date-time's stamp
   * are its year, month, day, hour, minute and second, in that order.
   */
  lemma StampFields(dt: DateTime)
    requires ValidDateTime(dt)
    ensures var s := Stamp(dt);
      && DecimalValue(s[0..4]) == dt.year && DecimalValue(s[4..6]) == dt.month
      && DecimalValue(s[6..8]) == dt.day && DecimalValue(s[9..11]) == dt.hour
      && DecimalValue(s[11..13]) == dt.minute && DecimalValue(s[13..15]) == dt.second
  {
    var s := Stamp(dt);
    StampGroups(dt);
    assert Pow10(2) == 100 && Pow10(4) == 10000;
    GroupValue(s, 0, dt.year, 4);
    GroupValue(s, 4, dt.month, 2);
    GroupValue(s, 6, dt.day, 2);
    GroupValue(s, 9, dt.hour, 2);
    GroupValue(s, 11, dt.minute, 2);
    GroupValue(s, 13, dt.second, 2);
  }

  /** Distinct date-times at second precision have distinct stamps. */
  lemma StampInjective(a: DateTime, b: DateTime)
    requires ValidDateTime(a) && ValidDateTime(b)
    requires Stamp(a) == Stamp(b)
    ensures a.year == b.year && a.month == b.month && a.day == b.day
    ensures a.hour == b.hour && a.minute == b.minute && a.second == b.second
  {
    StampFields(a);
    StampFields(b);
  }

  /** The stamp ignores the UTC offset and the microseconds. */
  lemma StampIgnoresZoneAndMicroseconds(a: DateTime, b: DateTime)
    requires a.year == b.year && a.month == b.month && a.day == b.day
    requires a.hour == b.hour && a.minute == b.minute && a.second == b.second
    ensures Stamp(a) == Stamp(b)
  {
  }

  // ---------------------------------------------------------------------
  // The event document.

  /** The eleven lines of the event document, in their fixed order. */
  function EventLines(now: DateTime, uid: string, summary: string, start: DateTime, end: DateTime,
                      description: string): seq<string>
  {
    [
      "BEGIN:VCALENDAR",
      "VERSION:2.0",
      "BEGIN:VEVENT",
      "SUMMARY:" + summary,
      "DTSTART:" + Stamp(start),
      "DTEND:" + Stamp(end),
      "DTSTAMP:" + Stamp(now),
      "UID:" + uid,
      "DESCRIPTION:" + description,
      "END:VEVENT",
      "END:VCALENDAR"
    ]
  }

  /**
   * The iCalendar text of one event: the eleven lines joined by "\n" (not
   * CRLF), with the caller's summary and description inserted verbatim.
   * `now` is the current UTC time and `uid` the fresh identifier, both
   * supplied by the caller. The document starts with the VCALENDAR opening
   * line and ends with its closing line, so no newline trails it.
   */
  function EventData(now: DateTime, uid: string, summary: string, start: DateTime, end: DateTime,
                     description: string := ""): (doc: string)
    ensures |"BEGIN:VCALENDAR\n"| <= |doc| && doc[..|"BEGIN:VCALENDAR\n"|] == "BEGIN:VCALENDAR\n"
    ensures |"END:VCALENDAR"| <= |doc| && doc[|doc| - |"END:VCALENDAR"|..] == "END:VCALENDAR"
  {
    var lines := EventLines(now, uid, summary, start, end, description);
    JoinEndsWithLast(lines, '\n');
    Join(lines, '\n')
  }

  /** No line break inside the caller's texts. */
  predicate SingleLine(s: string)
  {
    '\n' !in s
  }

  lemma StampSingleLine(dt: DateTime)
    ensures SingleLine(Stamp(dt))
  {
    var s := Stamp(dt);
    forall i | 0 <= i < |s| ensures s[i] != '\n' {
      if i != 8 && i != 15 { assert IsDigit(s[i]); }
    }
  }

  /**
   * Split on "\n", the document is exactly the eleven lines in their fixed
   * order, the texts verbatim after their property names, when no text
   * holds a line break.
   */
  lemma EventDataLines(now: DateTime, uid: string, summary: string, start: DateTime, end: DateTime, description: string)
    requires SingleLine(uid) && SingleLine(summary) && SingleLine(description)
    ensures Split(EventData(now, uid, summary, start, end, description), '\n') == [
      "BEGIN:VCALENDAR",
      "VERSION:2.0",
      "BEGIN:VEVENT",
      "SUMMARY:" + summary,
      "DTSTART:" + Stamp(start),
      "DTEND:" + Stamp(end),
      "DTSTAMP:" + Stamp(now),
      "UID:" + uid,
      "DESCRIPTION:" + description,
      "END:VEVENT",
      "END:VCALENDAR"
    ]
  {
    StampSingleLine(start);
    StampSingleLine(end);
    StampSingleLine(now);
    SplitJoin(EventLines(now, uid, summary, start, end, description), '\n');
  }

  /** Two documents built with different identifiers differ, whatever the other arguments. */
  lemma EventDataUidDistinct(now: DateTime, uid1: string, uid2: string, summary: string,
                             start: DateTime, end: DateTime, description: string)
    requires uid1 != uid2
    ensures EventData(now, uid1, summary, start, end, description)
         != EventData(now, uid2, summary, start, end, description)
  {
    var lines1 := EventLines(now, uid1, summary, start, end, description);
    var lines2 := EventLines(now, uid2, summary, start, end, description);
    assert lines1[..7] == lines2[..7];
    assert lines1[8..] == lines2[8..];
    assert lines1[7][4..] == uid1 && lines2[7][4..] == uid2;
    JoinDiffersAt(lines1, lines2, 7, '\n');
  }

  // ---------------------------------------------------------------------
  // Events as the calendar store keeps them.

  /**
   * A stored event as the CalDAV library exposes it: its SUMMARY, UID and
   * DESCRIPTION, each of which a stored event may lack.
   */
  datatype Event = Event(summary: Option<string>, uid: Option<string>, description: Option<string>)

  /**
   * How the event object's reader decodes a single TEXT value (section
   * 3.3.11 of RFC 5545): the value is a comma-separated list of which only
   * the first item is kept, so reading stops at the first unescaped comma;
   * `\\`, `\;`, `\,` and `\n` or `\N` stand for a backslash, a semicolon,
   * a comma and a line break; every other character, a lone backslash
   * included, stands for itself.
   */
  function FirstTextValue(s: string): (r: string)
    ensures |r| <= |s|
    decreases |s|
  {
    if s == [] || s[0] == ',' then []
    else if |s| >= 2 && s[0] == '\\' && s[1] in "\\;,nN" then
      [if s[1] == 'n' || s[1] == 'N' then '\n' else s[1]] + FirstTextValue(s[2..])
    else [s[0]] + FirstTextValue(s[1..])
  }

  /** A text without a backslash and without a comma reads back unchanged. */
  lemma {:induction false} FirstTextValueOfPlain(s: string)
    requires '\\' !in s && ',' !in s
    ensures FirstTextValue(s) == s
    decreases |s|
  {
    if s != [] {
      assert '\\' !in s[1..] && ',' !in s[1..];
      FirstTextValueOfPlain(s[1..]);
    }
  }

  /** Reading stops at the first comma: what follows it is dropped. */
  lemma {:induction false} FirstTextValueStopsAtComma(a: string, b: string)
    requires '\\' !in a && ',' !in a
    ensures FirstTextValue(a + "," + b) == a
    decreases |a|
  {
    if a == [] {
      assert (a + "," + b)[0] == ',';
    } else {
      assert (a + "," + b)[1..] == a[1..] + "," + b;
      assert '\\' !in a[1..] && ',' !in a[1..];
      FirstTextValueStopsAtComma(a[1..], b);
    }
  }

  /**
   * How the calendar store reads a document of the shape `EventData`
   * writes: the SUMMARY, UID and DESCRIPTION values after their property
   * names, each read as `FirstTextValue` reads it; `None` for text of any other
   * shape.
   */
  function ParseEventData(doc: string): Option<Event>
  {
    ReadLines(Split(doc, '\n'))
  }

  /** The reading of `ParseEventData`, on the document's lines. */
  function ReadLines(ls: seq<string>): Option<Event>
  {
    if && |ls| == 11
       && ls[0] == "BEGIN:VCALENDAR" && ls[1] == "VERSION:2.0" && ls[2] == "BEGIN:VEVENT"
       && "SUMMARY:" <= ls[3] && "DTSTART:" <= ls[4] && "DTEND:" <= ls[5] && "DTSTAMP:" <= ls[6]
       && "UID:" <= ls[7] && "DESCRIPTION:" <= ls[8]
       && ls[9] == "END:VEVENT" && ls[10] == "END:VCALENDAR"
    then Some(Event(Some(FirstTextValue(ls[3][|"SUMMARY:"|..])), Some(FirstTextValue(ls[7][|"UID:"|..])),
                    Some(FirstTextValue(ls[8][|"DESCRIPTION:"|..]))))
    else None
  }

  /**
   * Reading back a built document gives the caller's summary, identifier
   * and description as `FirstTextValue` reads them, when none of them
   * holds a line break: the document writes them without escaping them.
   */
  lemma EventDataReadBack(now: DateTime, uid: string, summary: string, start: DateTime, end: DateTime, description: string)
    requires SingleLine(uid) && SingleLine(summary) && SingleLine(description)
    ensures ParseEventData(EventData(now, uid, summary, start, end, description))
         == Some(Event(Some(FirstTextValue(summary)), Some(FirstTextValue(uid)), Some(FirstTextValue(description))))
  {
    EventDataLines(now, uid, summary, start, end, description);
    ReadLayout(summary, Stamp(start), Stamp(end), Stamp(now), uid, description);
  }

  /** The eleven lines of the layout, whatever the stamps, read back as `FirstTextValue` reads their texts. */
  lemma ReadLayout(summary: string, start: string, end: string, now: string, uid: string, description: string)
    ensures ReadLines([
      "BEGIN:VCALENDAR", "VERSION:2.0", "BEGIN:VEVENT",
      "SUMMARY:" + summary, "DTSTART:" + start, "DTEND:" + end, "DTSTAMP:" + now,
      "UID:" + uid, "DESCRIPTION:" + description,
      "END:VEVENT", "END:VCALENDAR"])
      == Some(Event(Some(FirstTextValue(summary)), Some(FirstTextValue(uid)), Some(FirstTextValue(description))))
  {
    var ls := [
      "BEGIN:VCALENDAR", "VERSION:2.0", "BEGIN:VEVENT",
      "SUMMARY:" + summary, "DTSTART:" + start, "DTEND:" + end, "DTSTAMP:" + now,
      "UID:" + uid, "DESCRIPTION:" + description,
      "END:VEVENT", "END:VCALENDAR"];
    assert ls[3][..8] == "SUMMARY:" && ls[3][8..] == summary;
    assert ls[4][..8] == "DTSTART:" && ls[5][..6] == "DTEND:" && ls[6][..8] == "DTSTAMP:";
    assert ls[7][..4] == "UID:" && ls[7][4..] == uid;
    assert ls[8][..12] == "DESCRIPTION:" && ls[8][12..] == description;
  }

  /**
   * Reading back a built document gives the caller's summary, identifier
   * and description unchanged, when none of them holds a line break, a
   * backslash or a comma.
   */
  lemma EventDataRoundTrip(now: DateTime, uid: string, summary: string, start: DateTime, end: DateTime, description: string)
    requires SingleLine(uid) && SingleLine(summary) && SingleLine(description)
    requires '\\' !in uid && '\\' !in summary && '\\' !in description
    requires ',' !in uid && ',' !in summary && ',' !in description
    ensures ParseEventData(EventData(now, uid, summary, start, end, description))
         == Some(Event(Some(summary), Some(uid), Some(description)))
  {
    EventDataReadBack(now, uid, summary, start, end, description);
    FirstTextValueOfPlain(summary);
    FirstTextValueOfPlain(uid);
    FirstTextValueOfPlain(description);
  }

  /**
   * A summary holding a backslash followed by `n` is written as is and
   * read back as a line break, so the stored event does not carry the
   * caller's summary.
   */
  lemma EventDataBackslashMisread(now: DateTime, uid: string, start: DateTime, end: DateTime, description: string)
    requires SingleLine(uid) && SingleLine(description)
    ensures var e := ParseEventData(EventData(now, uid, "a\\nb", start, end, description));
      e.Some? && e.value.summary == Some("a\nb") && e.value.summary != Some("a\\nb")
  {
    EventDataReadBack(now, uid, "a\\nb", start, end, description);
    assert FirstTextValue("a\\nb") == "a\nb" by {
      assert FirstTextValue("b") == "b";
      assert "a\\nb"[1..][2..] == "b";
      assert FirstTextValue("a\\nb"[1..]) == "\nb";
    }
  }

  /**
   * A summary holding a comma is written as is, and only the text before
   * the first comma is read back: "Meeting, Bob" is stored as "Meeting".
   */
  lemma EventDataCommaTruncates(now: DateTime, uid: string, a: string, b: string,
                                start: DateTime, end: DateTime, description: string)
    requires SingleLine(uid) && SingleLine(description) && SingleLine(a) && SingleLine(b)
    requires '\\' !in a && ',' !in a
    ensures var e := ParseEventData(EventData(now, uid, a + "," + b, start, end, description));
      e.Some? && e.value.summary == Some(a) && e.value.summary != Some(a + "," + b)
  {
    assert SingleLine(a + "," + b);
    EventDataReadBack(now, uid, a + "," + b, start, end, description);
    FirstTextValueStopsAtComma(a, b);
  }

  /** A calendar: its display name and the events the server stores in it. */
  class Calendar {
    const name: string
    var events: seq<Event>

    constructor (name: string, events: seq<Event>)
      ensures this.name == name && this.events == events
    {
      this.name := name;
      this.events := events;
    }
  }

  /** The first calendar whose name equals `name` exactly; `None` when none does. */
  function CalendarByName(calendars: seq<Calendar>, name: string): (r: Option<Calendar>)
    ensures r.None? <==> forall i | 0 <= i < |calendars| :: calendars[i].name != name
    ensures r.Some? ==> exists i | 0 <= i < |calendars| ::
      && calendars[i] == r.value && r.value.name == name
      && forall j | 0 <= j < i :: calendars[j].name != name
  {
    if calendars == [] then None
    else if calendars[0].name == name then Some(calendars[0])
    else
      var r := CalendarByName(calendars[1..], name);
      assert r.Some? ==> exists i | 1 <= i < |calendars| ::
        && calendars[i] == r.value && r.value.name == name
        && forall j | 0 <= j < i :: calendars[j].name != name;
      r
  }

  // ---------------------------------------------------------------------
  // Searching.

  /**
   * The server's answer to an event listing or a date-range search: which
   * stored events it returns, or an error raised by the library.
   */
  datatype SearchAnswer = Listed(selects: Event -> bool) | SearchRaised

  /** The events of `events` that `p` selects, in order. */
  function Filter(events: seq<Event>, p: Event -> bool): (r: seq<Event>)
    ensures |r| <= |events|
    ensures forall e | e in r :: e in events && p(e)
    ensures forall i | 0 <= i < |events| && p(events[i]) :: events[i] in r
  {
    if events == [] then []
    else (if p(events[0]) then [events[0]] else []) + Filter(events[1..], p)
  }

  lemma FilterCons(x: Event, rest: seq<Event>, p: Event -> bool)
    ensures Filter([x] + rest, p) == (if p(x) then [x] else []) + Filter(rest, p)
  {
    assert ([x] + rest)[1..] == rest;
  }

  lemma {:induction false} FilterAppend(events: seq<Event>, e: Event, p: Event -> bool)
    ensures Filter(events + [e], p) == Filter(events, p) + (if p(e) then [e] else [])
    decreases |events|
  {
    if events == [] {
      FilterCons(e, [], p);
      assert [e] + [] == [e];
    } else {
      var x, rest := events[0], events[1..];
      assert events == [x] + rest;
      assert events + [e] == [x] + (rest + [e]);
      FilterCons(x, rest, p);
      FilterCons(x, rest + [e], p);
      FilterAppend(rest, e, p);
    }
  }


  /** The unranged listing: the events, or `None` (returned implicitly) when the listing raises. */
  function ReadEvents(calendar: Calendar, answer: SearchAnswer): (r: Option<seq<Event>>)
    reads calendar
    ensures r.None? <==> answer.SearchRaised?
    ensures r.Some? ==> forall e | e in r.value :: e in calendar.events
    ensures answer.Listed? ==> r == Some(Filter(calendar.events, answer.selects))
  {
    match answer
    case SearchRaised => None
    case Listed(p) => Some(Filter(calendar.events, p))
  }

  /** The ranged search: the events in range, or `[]` when the search raises. */
  function ReadEventsInRange(calendar: Calendar, answer: SearchAnswer): (r: seq<Event>)
    reads calendar
    ensures answer.SearchRaised? ==> r == []
    ensures forall e | e in r :: e in calendar.events
    ensures answer.Listed? ==> r == Filter(calendar.events, answer.selects)
  {
    match answer
    case SearchRaised => []
    case Listed(p) => Filter(calendar.events, p)
  }

  /**
   * The search loop by SUMMARY from position `i`: the index of the first
   * event whose SUMMARY is `name`. An event without a SUMMARY met before
   * that raises, which the lookup catches, so the result is `None`.
   */
  function SummaryHitFrom(events: seq<Event>, name: string, i: nat): (r: Option<nat>)
    requires i <= |events|
    ensures r.Some? ==> i <= r.value < |events| && events[r.value].summary == Some(name)
    ensures r.Some? ==> forall j | i <= j < r.value :: events[j].summary.Some? && events[j].summary.value != name
    ensures r.None? ==> forall j | i <= j < |events| && events[j].summary == Some(name) ::
      exists k | i <= k < j :: events[k].summary.None?
    decreases |events| - i
  {
    if i == |events| then None
    else if events[i].summary.None? then None
    else if events[i].summary.value == name then Some(i)
    else SummaryHitFrom(events, name, i + 1)
  }

  /**
   * The first event whose SUMMARY is `name`, every event before it having
   * a different SUMMARY; `None` when no event has it, or when an event
   * without SUMMARY comes before the first one that has it.
   */
  function FindBySummary(events: seq<Event>, name: string): (r: Option<Event>)
    ensures r.Some? ==> exists k | 0 <= k < |events| ::
      && events[k] == r.value && r.value.summary == Some(name)
      && forall j | 0 <= j < k :: events[j].summary.Some? && events[j].summary.value != name
    ensures r.None? ==> forall j | 0 <= j < |events| && events[j].summary == Some(name) ::
      exists k | 0 <= k < j :: events[k].summary.None?
    ensures (forall i | 0 <= i < |events| :: events[i].summary.Some?) ==>
      (r.None? <==> forall i | 0 <= i < |events| :: events[i].summary != Some(name))
  {
    var hit := SummaryHitFrom(events, name, 0);
    match hit
    case None => None
    case Some(k) => Some(events[k])
  }

  /**
   * The unranged lookup by name: `None` when the listing fails (iterating
   * the missing list raises, and that is caught), otherwise the first
   * listed event with that SUMMARY.
   */
  function EventByName(calendar: Calendar, name: string, answer: SearchAnswer): (r: Option<Event>)
    reads calendar
    ensures answer.SearchRaised? ==> r.None?
    ensures r.Some? ==> r.value in calendar.events && r.value.summary == Some(name)
    ensures answer.Listed? ==> r == FindBySummary(Filter(calendar.events, answer.selects), name)
  {
    match ReadEvents(calendar, answer)
    case None => None
    case Some(events) => FindBySummary(events, name)
  }

  /** The ranged lookup by name: a failed search reads as `[]`, so it gives `None`. */
  function EventByNameInRange(calendar: Calendar, name: string, answer: SearchAnswer): (r: Option<Event>)
    reads calendar
    ensures answer.SearchRaised? ==> r.None?
    ensures r.Some? ==> r.value in calendar.events && r.value.summary == Some(name)
    ensures answer.Listed? ==> r == FindBySummary(Filter(calendar.events, answer.selects), name)
  {
    FindBySummary(ReadEventsInRange(calendar, answer), name)
  }

  // ---------------------------------------------------------------------
  // Creating and deleting.

  /**
   * Saving a document: the store keeps the event it reads from the text
   * when the save goes through; a failed save is caught and changes
   * nothing. Nothing is returned either way.
   */
  method CreateEvent(calendar: Calendar, data: string, saveSucceeds: bool)
    modifies calendar
    ensures calendar.events
         == if saveSucceeds && ParseEventData(data).Some?
            then old(calendar.events) + [ParseEventData(data).value]
            else old(calendar.events)
  {
    var parsed := ParseEventData(data);
    if saveSucceeds && parsed.Some? {
      calendar.events := calendar.events + [parsed.value];
    }
  }

  /**
   * The delete's search loop from position `i` of the stored events: the
   * index of the first event the range search returns whose UID is `uid`.
   * A returned event without a UID met before that raises, and the delete
   * catches it, so the result is `None`.
   */
  function UidHitFrom(events: seq<Event>, uid: string, p: Event -> bool, i: nat): (r: Option<nat>)
    requires i <= |events|
    ensures r.Some? ==> i <= r.value < |events| && p(events[r.value]) && events[r.value].uid == Some(uid)
    ensures r.Some? ==> forall j | i <= j < r.value && p(events[j]) :: events[j].uid.Some? && events[j].uid.value != uid
    ensures r.None? ==> forall j | i <= j < |events| && p(events[j]) && events[j].uid == Some(uid) ::
      exists k | i <= k < j :: p(events[k]) && events[k].uid.None?
    decreases |events| - i
  {
    if i == |events| then None
    else if !p(events[i]) then UidHitFrom(events, uid, p, i + 1)
    else if events[i].uid.None? then None
    else if events[i].uid.value == uid then Some(i)
    else UidHitFrom(events, uid, p, i + 1)
  }

  /** The stored events without the one at `k`; all others keep their order. */
  function RemoveAt(events: seq<Event>, k: nat): (r: seq<Event>)
    requires k < |events|
    ensures |r| == |events| - 1
    ensures multiset(r) + multiset{events[k]} == multiset(events)
    ensures forall j | 0 <= j < k :: r[j] == events[j]
    ensures forall j | k <= j < |r| :: r[j] == events[j + 1]
  {
    assert events == events[..k] + [events[k]] + events[k + 1..];
    events[..k] + events[k + 1..]
  }

  /**
   * The delete: it runs the range search and deletes the first returned
   * event whose UID is `uid`, returning `True`. It returns `False`, leaving
   * the calendar as it was, when the search raises, when no returned event
   * matches, when a returned event before the match has no UID, or when the
   * delete request itself raises.
   */
  method DeleteEvent(calendar: Calendar, uid: string, answer: SearchAnswer, deleteSucceeds: bool)
    returns (deleted: bool)
    modifies calendar
    ensures var hit := if answer.Listed? then UidHitFrom(old(calendar.events), uid, answer.selects, 0) else None;
      && deleted == (hit.Some? && deleteSucceeds)
      && calendar.events == if deleted then RemoveAt(old(calendar.events), hit.value) else old(calendar.events)
  {
    if answer.SearchRaised? {
      return false;
    }
    var events := calendar.events;
    var p := answer.selects;
    var i := 0;
    while i < |events|
      invariant 0 <= i <= |events|
      invariant calendar.events == events
      invariant UidHitFrom(events, uid, p, 0) == UidHitFrom(events, uid, p, i)
    {
      if p(events[i]) {
        if events[i].uid.None? {
          return false;
        }
        if events[i].uid.value == uid {
          if !deleteSucceeds {
            return false;
          }
          calendar.events := RemoveAt(events, i);
          return true;
        }
      }
      i := i + 1;
    }
    return false;
  }

  /** When UIDs are unique in the calendar, no event keeps the UID that was deleted. */
  lemma DeleteRemovesTheUid(events: seq<Event>, k: nat, uid: string)
    requires k < |events| && events[k].uid == Some(uid)
    requires forall i, j | 0 <= i < |events| && 0 <= j < |events| :: events[i].uid == events[j].uid == Some(uid) ==> i == j
    ensures forall e | e in RemoveAt(events, k) :: e.uid != Some(uid)
  {
    var r := RemoveAt(events, k);
    forall e | e in r ensures e.uid != Some(uid) {
      var j :| 0 <= j < |r| && r[j] == e;
      if j < k { assert r[j] == events[j]; } else { assert r[j] == events[j + 1]; }
    }
  }

  /** Appended after events with other summaries, an event is the one found by its summary. */
  lemma FindBySummaryAppended(before: seq<Event>, e: Event, name: string)
    requires forall i | 0 <= i < |before| :: before[i].summary.Some? && before[i].summary.value != name
    requires e.summary == Some(name)
    ensures FindBySummary(before + [e], name) == Some(e)
    ensures FindBySummary(before, name) == None
  {
    var listed := before + [e];
    var hit := SummaryHitFrom(listed, name, 0);
    assert listed[|before|] == e;
    if hit.None? {
      assert false;
    } else if hit.value < |before| {
      assert false;
    }
  }

  /** Appended after events with other UIDs, a returned event is the one the delete's search hits. */
  lemma UidHitAppended(events: seq<Event>, e: Event, uid: string, p: Event -> bool)
    requires forall i | 0 <= i < |events| :: events[i].uid.Some? && events[i].uid.value != uid
    requires p(e) && e.uid == Some(uid)
    ensures UidHitFrom(events + [e], uid, p, 0) == Some(|events|)
  {
    var all := events + [e];
    var hit := UidHitFrom(all, uid, p, 0);
    assert all[|events|] == e;
    if hit.None? {
      assert false;
    } else if hit.value < |events| {
      assert false;
    }
  }

  /**
   * The create, read, delete, read cycle on a calendar whose events all
   * carry a SUMMARY and a UID, none of them the new ones: the event built
   * and saved is found by its summary in a range that holds it, with the
   * caller's description; the delete by its UID finds it and takes exactly
   * it away; and the lookup then finds nothing.
   */
  lemma CreateFindDelete(events: seq<Event>, inRange: Event -> bool,
                         now: DateTime, uid: string, summary: string, start: DateTime, end: DateTime, description: string)
    requires SingleLine(uid) && SingleLine(summary) && SingleLine(description)
    requires '\\' !in uid && '\\' !in summary && '\\' !in description
    requires ',' !in uid && ',' !in summary && ',' !in description
    requires forall i | 0 <= i < |events| :: events[i].summary.Some? && events[i].summary.value != summary
    requires forall i | 0 <= i < |events| :: events[i].uid.Some? && events[i].uid.value != uid
    requires inRange(Event(Some(summary), Some(uid), Some(description)))
    ensures var e := Event(Some(summary), Some(uid), Some(description));
      && ParseEventData(EventData(now, uid, summary, start, end, description)) == Some(e)
      && FindBySummary(Filter(events + [e], inRange), summary) == Some(e)
      && UidHitFrom(events + [e], uid, inRange, 0) == Some(|events|)
      && RemoveAt(events + [e], |events|) == events
      && FindBySummary(Filter(events, inRange), summary) == None
  {
    EventDataRoundTrip(now, uid, summary, start, end, description);
    StoreCycle(events, inRange, Event(Some(summary), Some(uid), Some(description)), summary, uid);
  }

  /**
   * The store's part of that cycle, for an event appended after events
   * with other summaries and other identifiers.
   */
  lemma StoreCycle(events: seq<Event>, inRange: Event -> bool, e: Event, summary: string, uid: string)
    requires e.summary == Some(summary) && e.uid == Some(uid) && inRange(e)
    requires forall i | 0 <= i < |events| :: events[i].summary.Some? && events[i].summary.value != summary
    requires forall i | 0 <= i < |events| :: events[i].uid.Some? && events[i].uid.value != uid
    ensures FindBySummary(Filter(events + [e], inRange), summary) == Some(e)
    ensures UidHitFrom(events + [e], uid, inRange, 0) == Some(|events|)
    ensures RemoveAt(events + [e], |events|) == events
    ensures FindBySummary(Filter(events, inRange), summary) == None
  {
    var before := Filter(events, inRange);
    FilterAppend(events, e, inRange);
    forall i | 0 <= i < |before|
      ensures before[i].summary.Some? && before[i].summary.value != summary
    {
      assert before[i] in events;
    }
    FindBySummaryAppended(before, e, summary);
    UidHitAppended(events, e, uid, inRange);
    assert (events + [e])[..|events|] == events;
  }

}

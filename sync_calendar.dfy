/**
 * scripts/sync_calendar.py: turning the rows of the permits file into
 * calendar events and deciding which events of the calendar to create,
 * update and delete so that it matches the file. The calendar service is
 * not modelled: its current events come in as a map from event id, and the
 * decision comes out as a plan of three id sets. The MD5 digest of an
 * event's key is a parameter.
 */
module SyncCalendar {
  import opened Wrappers
  import opened Strings
  import opened Calendar
  import opened Batch

  /**
   * A row as `csv.DictReader` gives it: a value per header column, `None`
   * where the row ends before that column.
   */
  type CsvRow = map<string, Option<string>>

  const DateKey := "Date"
  const TimeKey := "Start - End Time"
  const FacilityKey := "Facility/Equipment/Instructor"
  const DayKey := "Day"
  const PermitKey := "Permit#"
  const SetupKey := "Setup - Ready Time"
  const AttendKey := "Attend/Qty"

  /** `row.get(key)` is truthy: the column is there and its value is a non-empty string. */
  predicate Truthy(row: CsvRow, key: string) {
    key in row && row[key].Some? && row[key].value != ""
  }

  /** How an f-string shows a cell: its text, or "None". */
  function Text(cell: Option<string>): string {
    match cell
    case None => "None"
    case Some(s) => s
  }

  // ----- parse_csv_file -----

  predicate HasDateAndTime(row: CsvRow) {
    Truthy(row, DateKey) && Truthy(row, TimeKey)
  }

  /** `parse_csv_file`: the rows with a date and a time range, in file order. */
  method ParseCsvFile(rows: seq<CsvRow>) returns (events: seq<CsvRow>)
    ensures events == Filter(rows, HasDateAndTime)
  {
    events := [];
    var i := 0;
    while i < |rows|
      invariant 0 <= i <= |rows|
      invariant events == Filter(rows[..i], HasDateAndTime)
    {
      FilterNext(rows, i, HasDateAndTime);
      if Truthy(rows[i], DateKey) && Truthy(rows[i], TimeKey) {
        events := events + [rows[i]];
      }
      i := i + 1;
    }
    assert rows[..i] == rows;
  }

  /** The rows kept are exactly the rows of the file that have a date and a time range. */
  lemma ParseCsvFileKeeps(rows: seq<CsvRow>)
    ensures forall row :: row in Filter(rows, HasDateAndTime) <==> row in rows && Truthy(row, DateKey) && Truthy(row, TimeKey)
  {
    FilterMembers(rows, HasDateAndTime);
  }

  // ----- parse_datetime -----

  /** A naive local date and time, to the minute. */
  datatype Moment = Moment(date: Date, minute: int)

  predicate ValidMoment(m: Moment) {
    ValidDate(m.date) && 0 <= m.minute < 24 * 60
  }

  /** Minutes from `start` to `end`, for an end on the same day or the next. */
  function Duration(start: Moment, end: Moment): int {
    (if end.date == start.date then 0 else 24 * 60) + end.minute - start.minute
  }

  /** Dates in 2023 are moved to 2025; all others stay. */
  function BumpYear(d: Date): (r: Date)
    requires ValidDate(d)
    ensures ValidDate(r) && r.month == d.month && r.day == d.day
    ensures r.year == if d.year == 2023 then 2025 else d.year
  {
    if d.year == 2023 then Date(2025, d.month, d.day) else d
  }

  /**
   * `parse_datetime`: "May 31, 2023" and "03:00 PM - 08:15 PM" (each part
   * stripped) as a start and an end. An end not after the start is on the
   * next day. Anything that does not parse, a range that does not split into
   * exactly two parts, and the day after the last date all give `None`.
   */
  function ParseDateTime(dateText: string, timeText: string): (r: Option<(Moment, Moment)>)
    ensures |SplitOn(timeText, " - ")| != 2 ==> r.None?
    ensures r.Some? ==> ValidMoment(r.value.0) && ValidMoment(r.value.1) && r.value.0.date.year != 2023
    ensures r.Some? ==> ParseLongDate(Strip(dateText)).Some? && r.value.0.date == BumpYear(ParseLongDate(Strip(dateText)).value)
    ensures r.Some? ==>
              var (start, end) := r.value;
              (end.date == start.date && start.minute < end.minute)
              || (NextDay(start.date) == Some(end.date) && end.minute <= start.minute)
    ensures ParseLongDate(Strip(dateText)).None? || TimeRange(timeText).None? ==> r.None?
    ensures ParseLongDate(Strip(dateText)).Some? && TimeRange(timeText).Some? ==>
              r == MomentsOn(BumpYear(ParseLongDate(Strip(dateText)).value), TimeRange(timeText).value.0, TimeRange(timeText).value.1)
  {
    var date :- BumpedDate(ParseLongDate(Strip(dateText)));
    var clocks :- TimeRange(timeText);
    MomentsOn(date, clocks.0, clocks.1)
  }

  /** A date read by "%B %d, %Y", with 2023 moved to 2025; no date stays no date. */
  function BumpedDate(parsed: Option<Date>): (r: Option<Date>)
    requires parsed.Some? ==> ValidDate(parsed.value)
    ensures r.Some? <==> parsed.Some?
    ensures r.Some? ==> ValidDate(r.value) && r.value.year != 2023
    ensures r.Some? ==> r.value.month == parsed.value.month && r.value.day == parsed.value.day
    ensures r.Some? ==> r.value.year == if parsed.value.year == 2023 then 2025 else parsed.value.year
  {
    if parsed.None? then None else Some(BumpYear(parsed.value))
  }

  /** "03:00 PM - 08:15 PM": exactly two parts, each stripped and read as "%I:%M %p". */
  function TimeRange(timeText: string): (r: Option<(Clock, Clock)>)
    ensures |SplitOn(timeText, " - ")| != 2 ==> r.None?
    ensures r.Some? ==> ValidClock(r.value.0) && ValidClock(r.value.1)
    ensures r.Some? <==>
              var parts := SplitOn(timeText, " - ");
              |parts| == 2 && ParseClock12(Strip(parts[0])).Some? && ParseClock12(Strip(parts[1])).Some?
    ensures r.Some? ==>
              var parts := SplitOn(timeText, " - ");
              |parts| == 2 && r.value == (ParseClock12(Strip(parts[0])).value, ParseClock12(Strip(parts[1])).value)
  {
    var times := SplitOn(timeText, " - ");
    if |times| != 2 then None
    else
      var startClock :- ParseClock12(Strip(times[0]));
      var endClock :- ParseClock12(Strip(times[1]));
      Some((startClock, endClock))
  }

  /**
   * The start and end moments of a time range on `date`: an end not after the
   * start is on the next day, which the last date does not have.
   */
  function MomentsOn(date: Date, startClock: Clock, endClock: Clock): (r: Option<(Moment, Moment)>)
    requires ValidDate(date) && ValidClock(startClock) && ValidClock(endClock)
    ensures r.None? <==> date == LastDate && endClock.hour * 60 + endClock.minute <= startClock.hour * 60 + startClock.minute
    ensures r.Some? ==> ValidMoment(r.value.0) && ValidMoment(r.value.1) && r.value.0.date == date
    ensures r.Some? ==> r.value.0.minute == startClock.hour * 60 + startClock.minute
    ensures r.Some? ==> r.value.1.minute == endClock.hour * 60 + endClock.minute
    ensures r.Some? ==>
              var (start, end) := r.value;
              (end.date == start.date && start.minute < end.minute)
              || (NextDay(start.date) == Some(end.date) && end.minute <= start.minute)
  {
    var start := Moment(date, startClock.hour * 60 + startClock.minute);
    var endMinute := endClock.hour * 60 + endClock.minute;
    if endMinute <= start.minute then
      var next :- NextDay(date);
      Some((start, Moment(next, endMinute)))
    else Some((start, Moment(date, endMinute)))
  }

  /**
   * A date written "%B %d, %Y" and a range written "%I:%M %p - %I:%M %p" read back
   * as that range's clock times on the (bumped) date.
   */
  lemma ParseDateTimeOfText(d: Date, startClock: Clock, endClock: Clock)
    requires ValidDate(d) && 1000 <= d.year
    requires ValidClock(startClock) && startClock.second == 0 && ValidClock(endClock) && endClock.second == 0
    ensures ParseDateTime(LongDateText(d), Clock12Text(startClock) + " - " + Clock12Text(endClock))
            == MomentsOn(BumpYear(d), startClock, endClock)
  {
    LongDateTextEnds(d);
    StripUnchanged(LongDateText(d));
    LongDateRoundTrip(d);
    TimeRangeOfText(startClock, endClock);
  }

  /** A range written "%I:%M %p - %I:%M %p" reads back as its two clock times. */
  lemma TimeRangeOfText(startClock: Clock, endClock: Clock)
    requires ValidClock(startClock) && startClock.second == 0 && ValidClock(endClock) && endClock.second == 0
    ensures TimeRange(Clock12Text(startClock) + " - " + Clock12Text(endClock)) == Some((startClock, endClock))
  {
    var a, b := Clock12Text(startClock), Clock12Text(endClock);
    Clock12TextShape(startClock);
    Clock12TextShape(endClock);
    SplitOnSeparator(a, " - ", b, 1);
    StripUnchanged(a);
    StripUnchanged(b);
    Clock12RoundTrip(startClock);
    Clock12RoundTrip(endClock);
  }

  /** A parsed range always ends after it starts, and lasts at most a day. */
  lemma ParseDateTimeDuration(dateText: string, timeText: string)
    requires ParseDateTime(dateText, timeText).Some?
    ensures var (start, end) := ParseDateTime(dateText, timeText).value;
            0 < Duration(start, end) <= 24 * 60
  {
    var (start, end) := ParseDateTime(dateText, timeText).value;
    if end.date != start.date {
      assert Before(start.date, end.date);
    }
  }

  // ----- create_event_id and create_calendar_event -----

  /** `create_event_id`: the digest of the date, the time range and the facility, joined by "_". */
  function EventId(row: CsvRow, digest: string -> string): string
    requires DateKey in row && TimeKey in row && FacilityKey in row
  {
    digest(Text(row[DateKey]) + "_" + Text(row[TimeKey]) + "_" + Text(row[FacilityKey]))
  }

  /** Rows that agree on the date, the time range and the facility get the same id. */
  lemma EventIdDeterministic(a: CsvRow, b: CsvRow, digest: string -> string)
    requires DateKey in a && TimeKey in a && FacilityKey in a
    requires DateKey in b && TimeKey in b && FacilityKey in b
    requires a[DateKey] == b[DateKey] && a[TimeKey] == b[TimeKey] && a[FacilityKey] == b[FacilityKey]
    ensures EventId(a, digest) == EventId(b, digest)
  {
  }

  /**
   * With a digest that never collides, two rows get the same id exactly when their
   * date, time range and facility texts agree, provided the date and time texts
   * hold no "_" (the separator the key is joined with).
   */
  lemma EventIdUnique(a: CsvRow, b: CsvRow, digest: string -> string)
    requires forall x, y :: digest(x) == digest(y) ==> x == y
    requires DateKey in a && TimeKey in a && FacilityKey in a
    requires DateKey in b && TimeKey in b && FacilityKey in b
    requires forall j :: 0 <= j < |Text(a[DateKey])| ==> Text(a[DateKey])[j] != '_'
    requires forall j :: 0 <= j < |Text(b[DateKey])| ==> Text(b[DateKey])[j] != '_'
    requires forall j :: 0 <= j < |Text(a[TimeKey])| ==> Text(a[TimeKey])[j] != '_'
    requires forall j :: 0 <= j < |Text(b[TimeKey])| ==> Text(b[TimeKey])[j] != '_'
    ensures EventId(a, digest) == EventId(b, digest) <==>
              Text(a[DateKey]) == Text(b[DateKey]) && Text(a[TimeKey]) == Text(b[TimeKey])
              && Text(a[FacilityKey]) == Text(b[FacilityKey])
  {
    var da, ta, fa := Text(a[DateKey]), Text(a[TimeKey]), Text(a[FacilityKey]);
    var db, tb, fb := Text(b[DateKey]), Text(b[TimeKey]), Text(b[FacilityKey]);
    if EventId(a, digest) == EventId(b, digest) {
      var ka, kb := da + "_" + ta + "_" + fa, db + "_" + tb + "_" + fb;
      assert digest(ka) == digest(kb);
      Regroup(da, "_", ta, "_", fa);
      Regroup(db, "_", tb, "_", fb);
      JoinedAtFirst(da, ta + ("_" + fa), db, tb + ("_" + fb), '_');
      JoinedAtFirst(ta, fa, tb, fb, '_');
    }
  }

  /**
   * The calendar event of a row. The time zone, the fixed one-hour reminder
   * and the ISO rendering of the times are not modelled.
   */
  datatype CalendarEvent = CalendarEvent(
    id: string,
    summary: string,
    description: string,
    location: Option<string>,
    start: Moment,
    end: Moment)

  /**
   * The description's lines: facility, date and day, time range and permit,
   * then the setup time and the attendance when the row has them.
   */
  function DescriptionLines(row: CsvRow): (lines: seq<string>)
    requires FacilityKey in row && DateKey in row && DayKey in row && TimeKey in row && PermitKey in row
    ensures |lines| == 4 + (if Truthy(row, SetupKey) then 1 else 0) + (if Truthy(row, AttendKey) then 1 else 0)
    ensures lines[..4] == ["Facility: " + Text(row[FacilityKey]),
                           "Date: " + Text(row[DateKey]) + " (" + Text(row[DayKey]) + ")",
                           "Time: " + Text(row[TimeKey]),
                           "Permit #: " + Text(row[PermitKey])]
    ensures Truthy(row, SetupKey) ==> lines[4] == "Setup Time: " + row[SetupKey].value
    ensures Truthy(row, AttendKey) ==> lines[|lines| - 1] == "Attendance/Quantity: " + row[AttendKey].value
  {
    ["Facility: " + Text(row[FacilityKey]),
     "Date: " + Text(row[DateKey]) + " (" + Text(row[DayKey]) + ")",
     "Time: " + Text(row[TimeKey]),
     "Permit #: " + Text(row[PermitKey])]
    + (if Truthy(row, SetupKey) then ["Setup Time: " + row[SetupKey].value] else [])
    + (if Truthy(row, AttendKey) then ["Attendance/Quantity: " + row[AttendKey].value] else [])
  }

  /** A setup line is in the description exactly when the row has a setup time. */
  lemma SetupLinePresent(row: CsvRow)
    requires FacilityKey in row && DateKey in row && DayKey in row && TimeKey in row && PermitKey in row
    ensures Truthy(row, SetupKey) <==> exists k :: 0 <= k < |DescriptionLines(row)| && StartsWith(DescriptionLines(row)[k], "Setup Time: ")
  {
    var lines := DescriptionLines(row);
    if Truthy(row, SetupKey) {
      assert StartsWith(lines[4], "Setup Time: ");
    } else {
      forall k | 0 <= k < |lines|
        ensures !StartsWith(lines[k], "Setup Time: ")
      {
        assert k < 4 ==> lines[k] == lines[..4][k];
        assert lines[k][0] != 'S';
      }
    }
  }

  /**
   * `create_calendar_event`: `None` when the date or the time range does not
   * parse or a column it reads is missing from the file; otherwise the
   * event titled after the facility, at the facility.
   */
  function CreateCalendarEvent(row: CsvRow, digest: string -> string): (r: Option<CalendarEvent>)
    ensures r.Some? ==> DateKey in row && TimeKey in row && FacilityKey in row
    ensures r.Some? ==> r.value.summary == "NCLL Game - " + Text(row[FacilityKey])
                        && r.value.location == row[FacilityKey]
                        && r.value.id == EventId(row, digest)
  {
    if DateKey !in row || TimeKey !in row || row[DateKey].None? || row[TimeKey].None? then None
    else
      var moments :- ParseDateTime(row[DateKey].value, row[TimeKey].value);
      if FacilityKey !in row || DayKey !in row || PermitKey !in row then None
      else
        Some(CalendarEvent(
          EventId(row, digest),
          "NCLL Game - " + Text(row[FacilityKey]),
          Join(DescriptionLines(row), "\n"),
          row[FacilityKey],
          moments.0,
          moments.1))
  }

  /** A row with the columns the event needs gives an event exactly when its date and time range parse, at the parsed times. */
  lemma CreateCalendarEventParses(row: CsvRow, digest: string -> string)
    requires HasDateAndTime(row) && FacilityKey in row && DayKey in row && PermitKey in row
    ensures CreateCalendarEvent(row, digest).Some? <==> ParseDateTime(row[DateKey].value, row[TimeKey].value).Some?
    ensures CreateCalendarEvent(row, digest).Some? ==>
              var e := CreateCalendarEvent(row, digest).value;
              ParseDateTime(row[DateKey].value, row[TimeKey].value) == Some((e.start, e.end))
              && e.description == Join(DescriptionLines(row), "\n")
  {
  }

  // ----- sync_events_to_calendar -----

  /** `create_calendar_event` with the digest fixed. */
  function Creator(digest: string -> string): CsvRow -> Option<CalendarEvent>
  {
    row => CreateCalendarEvent(row, digest)
  }

  /** The events `create` makes of the rows, by id; a later row with the same id replaces an earlier one. */
  function ById(rows: seq<CsvRow>, create: CsvRow -> Option<CalendarEvent>): map<string, CalendarEvent>
    decreases |rows|
  {
    if rows == [] then map[]
    else
      var events := ById(rows[..|rows| - 1], create);
      match create(rows[|rows| - 1])
      case None => events
      case Some(e) => events[e.id := e]
  }

  /** The script's `new_events`. */
  function NewEventsOf(rows: seq<CsvRow>, digest: string -> string): map<string, CalendarEvent>
  {
    ById(rows, Creator(digest))
  }

  /**
   * Every id in the map is the id of the event of some row, and the event
   * kept is that of the last such row; every row's event is kept under its
   * id unless a later row has the same id.
   */
  lemma {:induction false} ByIdLastWins(rows: seq<CsvRow>, create: CsvRow -> Option<CalendarEvent>)
    ensures forall id :: id in ById(rows, create) ==>
              ById(rows, create)[id].id == id && exists i :: 0 <= i < |rows| && create(rows[i]) == Some(ById(rows, create)[id])
    ensures forall i :: 0 <= i < |rows| && create(rows[i]).Some?
                        && (forall j :: i < j < |rows| && create(rows[j]).Some? ==> create(rows[j]).value.id != create(rows[i]).value.id) ==>
              create(rows[i]).value.id in ById(rows, create) && ById(rows, create)[create(rows[i]).value.id] == create(rows[i]).value
    decreases |rows|
  {
    if rows != [] {
      var init := rows[..|rows| - 1];
      ByIdLastWins(init, create);
      assert forall i :: 0 <= i < |init| ==> init[i] == rows[i];
    }
  }

  /** For the script's events: the last row with an id decides that id's event. */
  lemma NewEventsLastWins(rows: seq<CsvRow>, digest: string -> string)
    ensures forall id :: id in NewEventsOf(rows, digest) ==>
              NewEventsOf(rows, digest)[id].id == id
              && exists i :: 0 <= i < |rows| && CreateCalendarEvent(rows[i], digest) == Some(NewEventsOf(rows, digest)[id])
    ensures forall i :: 0 <= i < |rows| && CreateCalendarEvent(rows[i], digest).Some?
                        && (forall j :: i < j < |rows| && CreateCalendarEvent(rows[j], digest).Some? ==>
                              CreateCalendarEvent(rows[j], digest).value.id != CreateCalendarEvent(rows[i], digest).value.id) ==>
              var e := CreateCalendarEvent(rows[i], digest).value;
              e.id in NewEventsOf(rows, digest) && NewEventsOf(rows, digest)[e.id] == e
  {
    ByIdLastWins(rows, Creator(digest));
  }

  /** The calendar's copy of an event differs from the file's in a field the script compares. */
  predicate Changed(existing: CalendarEvent, event: CalendarEvent) {
    existing.summary != event.summary || existing.start != event.start
    || existing.end != event.end || existing.location != event.location
  }

  /** What the script asks the calendar service to do, by event id. */
  datatype Plan = Plan(creates: set<string>, updates: set<string>, deletes: set<string>)

  /**
   * The decision of `sync_events_to_calendar`: create the new ids, update
   * the shared ids whose event changed, delete the ids no longer in the file.
   */
  function SyncPlan(existing: map<string, CalendarEvent>, newEvents: map<string, CalendarEvent>): (p: Plan)
    ensures p.creates !! p.updates && p.creates !! p.deletes && p.updates !! p.deletes
    ensures p.creates + p.updates <= newEvents.Keys && p.deletes <= existing.Keys
  {
    Plan(
      set id | id in newEvents && id !in existing,
      set id | id in newEvents && id in existing && Changed(existing[id], newEvents[id]),
      set id | id in existing && id !in newEvents)
  }

  /** The calendar already matches: the same ids, and no compared field differs. */
  predicate InSync(existing: map<string, CalendarEvent>, newEvents: map<string, CalendarEvent>) {
    existing.Keys == newEvents.Keys && forall id :: id in newEvents ==> !Changed(existing[id], newEvents[id])
  }

  /** The plan is empty exactly when the calendar already matches the file. */
  lemma SyncPlanEmptyIffInSync(existing: map<string, CalendarEvent>, newEvents: map<string, CalendarEvent>)
    ensures SyncPlan(existing, newEvents) == Plan({}, {}, {}) <==> InSync(existing, newEvents)
  {
    var p := SyncPlan(existing, newEvents);
    if p == Plan({}, {}, {}) {
      forall id | id in newEvents ensures id in existing && !Changed(existing[id], newEvents[id]) {
        assert id !in p.creates && id !in p.updates;
      }
      forall id | id in existing ensures id in newEvents {
        assert id !in p.deletes;
      }
    }
    if InSync(existing, newEvents) {
      assert forall id :: id !in p.creates && id !in p.updates && id !in p.deletes;
    }
  }

  /** The calendar after the service carries out the plan. */
  function ApplyPlan(existing: map<string, CalendarEvent>, newEvents: map<string, CalendarEvent>, p: Plan): map<string, CalendarEvent>
    requires p.creates + p.updates <= newEvents.Keys && p.creates !! existing.Keys
  {
    map id | id in (existing.Keys - p.deletes) + p.creates ::
      if id in p.creates || id in p.updates then newEvents[id] else existing[id]
  }

  /** Carrying out the plan brings the calendar in line with the file, so a second run plans nothing. */
  lemma ApplyPlanReconciles(existing: map<string, CalendarEvent>, newEvents: map<string, CalendarEvent>)
    ensures var p := SyncPlan(existing, newEvents);
            p.creates !! existing.Keys && InSync(ApplyPlan(existing, newEvents, p), newEvents)
    ensures var p := SyncPlan(existing, newEvents);
            p.creates !! existing.Keys && SyncPlan(ApplyPlan(existing, newEvents, p), newEvents) == Plan({}, {}, {})
  {
    var p := SyncPlan(existing, newEvents);
    var after := ApplyPlan(existing, newEvents, p);
    assert after.Keys == newEvents.Keys by {
      forall id ensures id in after <==> id in newEvents {
        if id in newEvents && id !in existing {
          assert id in p.creates;
        }
        if id in existing && id !in newEvents {
          assert id in p.deletes;
        }
      }
    }
    SyncPlanEmptyIffInSync(after, newEvents);
  }

  /** The new events, one row at a time, as the script's first loop builds them. */
  method NewEvents(csvEvents: seq<CsvRow>, digest: string -> string) returns (newEvents: map<string, CalendarEvent>)
    ensures newEvents == NewEventsOf(csvEvents, digest)
  {
    ghost var create := Creator(digest);
    newEvents := map[];
    var i := 0;
    while i < |csvEvents|
      invariant 0 <= i <= |csvEvents|
      invariant newEvents == ById(csvEvents[..i], create)
    {
      assert csvEvents[..i + 1][..i] == csvEvents[..i];
      var event := CreateCalendarEvent(csvEvents[i], digest);
      assert create(csvEvents[i]) == event;
      if event.Some? {
        newEvents := newEvents[event.value.id := event.value];
      }
      i := i + 1;
    }
    assert csvEvents[..i] == csvEvents;
  }

  /** The new ids already visited, while `pending` are still to be visited. */
  ghost function CreatedSoFar(existing: map<string, CalendarEvent>, newEvents: map<string, CalendarEvent>, pending: set<string>): set<string>
  {
    set id | id in newEvents && id !in pending && id !in existing
  }

  /** The changed shared ids already visited, while `pending` are still to be visited. */
  ghost function UpdatedSoFar(existing: map<string, CalendarEvent>, newEvents: map<string, CalendarEvent>, pending: set<string>): set<string>
  {
    set id | id in newEvents && id !in pending && id in existing && Changed(existing[id], newEvents[id])
  }

  /** Visiting one more id adds it to the creates or the updates, or to neither. */
  lemma PendingStep(existing: map<string, CalendarEvent>, newEvents: map<string, CalendarEvent>, pending: set<string>, id: string)
    requires id in pending && pending <= newEvents.Keys
    ensures id !in CreatedSoFar(existing, newEvents, pending) && id !in UpdatedSoFar(existing, newEvents, pending)
    ensures CreatedSoFar(existing, newEvents, pending - {id}) ==
              CreatedSoFar(existing, newEvents, pending) + (if id !in existing then {id} else {})
    ensures UpdatedSoFar(existing, newEvents, pending - {id}) ==
              UpdatedSoFar(existing, newEvents, pending) + (if id in existing && Changed(existing[id], newEvents[id]) then {id} else {})
  {
  }

  /** Before the pass nothing is decided; after it the decisions are those of the plan. */
  lemma PassEnds(existing: map<string, CalendarEvent>, newEvents: map<string, CalendarEvent>)
    ensures CreatedSoFar(existing, newEvents, newEvents.Keys) == {} && UpdatedSoFar(existing, newEvents, newEvents.Keys) == {}
    ensures CreatedSoFar(existing, newEvents, {}) == SyncPlan(existing, newEvents).creates
    ensures UpdatedSoFar(existing, newEvents, {}) == SyncPlan(existing, newEvents).updates
  {
  }

  /** The script's pass over the new events: a new id is created, a shared id whose event changed is updated. */
  method DecideCreatesAndUpdates(existing: map<string, CalendarEvent>, newEvents: map<string, CalendarEvent>)
    returns (creates: set<string>, updates: set<string>, created: nat, updated: nat)
    ensures creates == SyncPlan(existing, newEvents).creates && created == |creates|
    ensures updates == SyncPlan(existing, newEvents).updates && updated == |updates|
  {
    creates, updates := {}, {};
    created, updated := 0, 0;
    var pending := newEvents.Keys;
    PassEnds(existing, newEvents);
    while pending != {}
      invariant pending <= newEvents.Keys
      invariant creates == CreatedSoFar(existing, newEvents, pending)
      invariant updates == UpdatedSoFar(existing, newEvents, pending)
      invariant created == |creates| && updated == |updates|
      decreases pending
    {
      var id :| id in pending;
      PendingStep(existing, newEvents, pending, id);
      if id in existing {
        if Changed(existing[id], newEvents[id]) {
          updates := updates + {id};
          updated := updated + 1;
        }
      } else {
        creates := creates + {id};
        created := created + 1;
      }
      pending := pending - {id};
    }
  }

  /** The script's pass over the calendar's events: an id no longer among the new events is deleted. */
  method DecideDeletes(existing: map<string, CalendarEvent>, newEvents: map<string, CalendarEvent>)
    returns (deletes: set<string>, deleted: nat)
    ensures deletes == SyncPlan(existing, newEvents).deletes && deleted == |deletes|
  {
    deletes, deleted := {}, 0;
    var pending := existing.Keys;
    while pending != {}
      invariant pending <= existing.Keys
      invariant deletes == set id | id in existing && id !in pending && id !in newEvents
      invariant deleted == |deletes|
      decreases pending
    {
      var id :| id in pending;
      if id !in newEvents {
        deletes := deletes + {id};
        deleted := deleted + 1;
      }
      pending := pending - {id};
    }
  }

  /**
   * `sync_events_to_calendar` without the service: the new events from the
   * rows, then the decisions of its two passes, with their counts.
   */
  method SyncEventsToCalendar(existing: map<string, CalendarEvent>, csvEvents: seq<CsvRow>, digest: string -> string)
    returns (p: Plan, created: nat, updated: nat, deleted: nat)
    ensures p == SyncPlan(existing, NewEventsOf(csvEvents, digest))
    ensures created == |p.creates| && updated == |p.updates| && deleted == |p.deletes|
  {
    var newEvents := NewEvents(csvEvents, digest);
    var creates, updates;
    creates, updates, created, updated := DecideCreatesAndUpdates(existing, newEvents);
    var deletes;
    deletes, deleted := DecideDeletes(existing, newEvents);
    p := Plan(creates, updates, deletes);
  }
}

/**
 * converter.py: turning the league's spreadsheet schedules into game rows,
 * with team names and field names rewritten to the names the league uses.
 * A spreadsheet row is the record of the cells the readers look at; pandas
 * gives the date and time cells as values, and NaN in the game-number cell
 * is `None`.
 */
module Converter {
  import opened Wrappers
  import opened Faults
  import opened Strings
  import opened Decimal
  import opened Calendar
  import opened Batch

  // ----- team names -----

  /** The league's own teams, by their names in the spreadsheets. */
  const TeamsMap: map<string, string> := map[
    "NCLL SantoriniDave.com" := "SantoriniDave.com",
    "NCLL Harjo Construction" := "Harjo Construction",
    "NCLL Dynamite" := "TNT Taqueria Dynamite",
    "NCLL Cheeto Sloths" := "Ballard Pediatric Dentistry Cheeto Sloths",
    "NCLL Lightning Dogs" := "Anytime Fitness Lighting Dogs",
    "NCLL Cube Smart Cats" := "Cube Smart Cats",
    "NCLL/QALL Reignmakers" := "Windemere Greenwood",
    "Ken's Market" := "Ken's Market",
    "Rough Riders" := "Rough Riders",
    "Reuben's Brewers" := "Reuben's Brewers"
  ]

  /** Other leagues' teams whose names are rewritten too. */
  const OtherTeamsMap: map<string, string> := map[
    "NESLL/RUGLL LLC" := "NESLL/RUGLL Laurelhurst Community Club",
    "MLL Criminals" := "MLL Washington Alarm"
  ]

  /**
   * `get_team_name`: the league's name for a team of its own, else the name
   * for another league's team, else the name as given. No name is a key of
   * both tables, so the order of the two lookups does not matter.
   */
  function TeamName(name: string): (r: string)
    ensures name in TeamsMap ==> r == TeamsMap[name]
    ensures name in OtherTeamsMap ==> r == OtherTeamsMap[name]
    ensures name !in TeamsMap && name !in OtherTeamsMap ==> r == name
  {
    if name in TeamsMap then TeamsMap[name]
    else if name in OtherTeamsMap then OtherTeamsMap[name]
    else name
  }

  /** Renaming a renamed team changes nothing: no new name is an old name of another team. */
  lemma TeamNameIdempotent(name: string)
    ensures TeamName(TeamName(name)) == TeamName(name)
  {
    var r := TeamName(name);
    if name in TeamsMap {
      assert r in TeamsMap.Values;
      assert r !in OtherTeamsMap;
      assert r in TeamsMap ==> TeamsMap[r] == r;
    } else if name in OtherTeamsMap {
      assert r in OtherTeamsMap.Values;
      assert r !in TeamsMap && r !in OtherTeamsMap;
    }
  }

  // ----- times and dates -----

  /** `time_str`: the hour without padding, the minute padded to two digits. */
  function TimeText(t: Clock): (r: string)
    requires ValidClock(t)
    ensures |r| == |Show(t.hour as nat)| + 3 && r[|r| - 3] == ':'
    ensures AllDigits(r[..|r| - 3]) && AllDigits(r[|r| - 2..])
  {
    Show(t.hour as nat) + ":" + Pad(t.minute as nat, 2)
  }

  /** The rendering reads back as the same hour and minute. */
  lemma TimeTextRoundTrip(t: Clock)
    requires ValidClock(t)
    ensures ParseHourMinute(TimeText(t)) == Some(Clock(t.hour, t.minute, 0))
  {
    var h, m := Show(t.hour as nat), Pad(t.minute as nat, 2);
    ShowWidth(t.hour as nat);
    ValueOfShow(t.hour as nat);
    PadTwo(t.minute as nat);
    ValueOfPad(t.minute as nat, 2);
    assert TimeText(t) == h + (":" + m);
    NumberOfNumeral(h, ":" + m, 1, 2, 0, 23);
    LiteralOf(":", m);
    assert m == m + [];
    NumberOfNumeral(m, [], 1, 2, 0, 59);
  }

  /** Only hour 0 starts with a zero, and the hours before 10 take one character. */
  lemma TimeTextUnpadded(t: Clock)
    requires ValidClock(t)
    ensures TimeText(t)[0] == '0' ==> t.hour == 0
    ensures |TimeText(t)| == (if t.hour < 10 then 4 else 5)
  {
    ShowWidth(t.hour as nat);
    PadTwo(t.minute as nat);
    if t.hour > 0 {
      ShowLeading(t.hour as nat);
    }
  }

  /** The date column of the output: month, day and year, none of them padded. */
  function DateText(d: Date): (r: string)
    requires ValidDate(d)
    ensures var m, dd := |Show(d.month as nat)|, |Show(d.day as nat)|;
            |r| == m + dd + 2 + |Show(d.year as nat)| && r[m] == '/' && r[m + dd + 1] == '/'
            && AllDigits(r[..m]) && AllDigits(r[m + 1..m + dd + 1]) && AllDigits(r[m + dd + 2..])
  {
    var m, dd, y := Show(d.month as nat), Show(d.day as nat), Show(d.year as nat);
    var r := m + "/" + dd + "/" + y;
    assert r[..|m|] == m && r[|m| + 1..|m| + |dd| + 1] == dd && r[|m| + |dd| + 2..] == y;
    r
  }

  /** The date column reads back as the same date under "%m/%d/%Y". */
  lemma DateTextRoundTrip(d: Date)
    requires ValidDate(d) && 1000 <= d.year
    ensures ParseMonthDayYear(DateText(d)) == Some(d)
  {
    var dd, y := Show(d.day as nat), Show(d.year as nat);
    var tail2 := "/" + y;
    var tail1 := "/" + (dd + tail2);
    assert DateText(d) == Show(d.month as nat) + tail1;
    ShortField(d.month as nat, tail1, 1, 12);
    LiteralOf("/", dd + tail2);
    ShortField(d.day as nat, tail2, 1, 31);
    LiteralOf("/", y);
    YearField(d.year as nat);
    MonthDayYearSteps(DateText(d), d, tail1, dd + tail2, tail2, y);
  }

  /** Neither the month nor the day is padded: the column never starts with a zero, nor does the day. */
  lemma DateTextUnpadded(d: Date)
    requires ValidDate(d)
    ensures DateText(d)[0] != '0'
    ensures DateText(d)[|Show(d.month as nat)| + 1] != '0'
  {
    ShowLeading(d.month as nat);
    ShowLeading(d.day as nat);
  }

  // ----- softball locations -----

  /** Softball parks renamed to the league's names for them. */
  const SoftballFieldsMap: map<string, string> := map[
    "Gilman Playfield" := "Gilman",
    "Magnolia Playfield" := "Magnolia",
    "Mickey Merriam Playfield" := "Mickey Merriam",
    "Micky Merriam Park" := "Micky Merriam",
    "Northacres Park" := "Northacres",
    "Laurelhurst Playfield" := "Laurelhurst",
    "Lawton Park" := "Lawton",
    "Loyal Heights Playfield" := "Loyal Heights",
    "Lower Woodland Playfield" := "Lower Woodland Cloverleaf",
    "West Queen Anne Playfield" := "Queen Anne"
  ]

  /** `fields_map.get(location, location)`. */
  function Renamed(table: map<string, string>, location: string): string
  {
    if location in table then table[location] else location
  }

  /**
   * The second half of `split_location_and_field`: a park and a field number
   * as the league names them. Three parks have a fixed pair that ignores the
   * number; elsewhere the field is "Field " and the number, and field 2 of
   * the Ballard Community Center is its west field.
   */
  function SoftballPlace(location: string, number: string): (r: (string, string))
    ensures location == "Ravenna Park" ==> r == ("Ravenna", "Softball Field")
    ensures location == "Ross Playground - Lower" ==> r == ("Ross Park", "Lower Ross")
    ensures location == "Ingraham High School - Softball Field" ==> r == ("Ingram High School", "Softball Field")
    ensures r.1 in {"Softball Field", "Lower Ross"} || StartsWith(r.1, "Field ")
  {
    if location == "Ravenna Park" then ("Ravenna", "Softball Field")
    else if location == "Ross Playground - Lower" then ("Ross Park", "Lower Ross")
    else if location == "Ingraham High School - Softball Field" then ("Ingram High School", "Softball Field")
    else
      var renamed := Renamed(SoftballFieldsMap, location);
      (renamed, "Field " + (if renamed == "Ballard Community Center" && number == "2" then "2 (West)" else number))
  }

  /** Every other park keeps its number behind "Field ", under its league name. */
  lemma SoftballPlaceNumbered(location: string, number: string)
    requires location !in {"Ravenna Park", "Ross Playground - Lower", "Ingraham High School - Softball Field"}
    ensures SoftballPlace(location, number).0 == Renamed(SoftballFieldsMap, location)
    ensures location != "Ballard Community Center" || number != "2" ==> SoftballPlace(location, number).1 == "Field " + number
    ensures location == "Ballard Community Center" && number == "2" ==> SoftballPlace(location, number).1 == "Field 2 (West)"
  {
    assert "Ballard Community Center" !in SoftballFieldsMap;
    assert "Ballard Community Center" !in SoftballFieldsMap.Values;
  }

  /**
   * `split_location_and_field`: "park # number", each half stripped, when the
   * text has exactly one '#'; otherwise the whole stripped text is the park
   * and the number is "1".
   */
  function SplitLocationAndField(combined: string): (r: (string, string))
    ensures r.1 in {"Softball Field", "Lower Ross"} || StartsWith(r.1, "Field ")
  {
    var parts := SplitOn(combined, "#");
    if |parts| == 2 then SoftballPlace(Strip(parts[0]), Strip(parts[1]))
    else SoftballPlace(Strip(combined), "1")
  }

  /** With exactly one '#', the park is the stripped text before it and the number the stripped text after it. */
  lemma SplitLocationAndFieldOnHash(location: string, number: string)
    requires forall j :: 0 <= j < |location| ==> location[j] != '#'
    requires forall j :: 0 <= j < |number| ==> number[j] != '#'
    ensures SplitLocationAndField(location + "#" + number) == SoftballPlace(Strip(location), Strip(number))
  {
    SplitOnAround(location, '#', number);
  }

  /** With no '#' or more than one, the whole stripped text is the park and the field is number 1. */
  lemma SplitLocationAndFieldWhole(combined: string)
    requires Count(combined, '#') != 1
    ensures SplitLocationAndField(combined) == SoftballPlace(Strip(combined), "1")
  {
    SplitCount(combined, '#');
  }

  // ----- baseball locations -----

  /** Baseball parks renamed to the league's names for them. */
  const BaseballFieldsMap: map<string, string> := map[
    "Bayview Playground (Raye Field)" := "Bayview",
    "Lower Woodland Park Field" := "Lower Woodland Cloverleaf",
    "QA" := "Queen Anne",
    "Shorewood H.S." := "Shorewood HS",
    "Soundview Field" := "Soundview"
  ]

  /**
   * `get_baseball_location_and_field`: a trailing digit of the stripped text
   * is the field number and the rest, stripped again, the park; without one
   * the field is number 1. An all-blank location has no last character and
   * raises IndexError. The field is always "Field " and one digit.
   */
  function BaseballLocationAndField(combined: string): (r: Result<(string, string), Fault>)
    ensures r.Failure? <==> Strip(combined) == []
    ensures r.Failure? ==> r.error == IndexError
    ensures r.Success? ==> |r.value.1| == 7 && r.value.1[..6] == "Field " && IsDigit(r.value.1[6])
  {
    var location := Strip(combined);
    if location == [] then Failure(IndexError)
    else
      var last := location[|location| - 1];
      var field := if IsDigit(last) then [last] else "1";
      var park := if IsDigit(last) then Strip(location[..|location| - 1]) else location;
      Success((Renamed(BaseballFieldsMap, park), "Field " + field))
  }

  /** A park name followed by a space and a digit reads back as that park and field. */
  lemma BaseballLocationAndFieldOf(park: string, digit: char)
    requires park != [] && !IsSpace(park[0]) && !IsSpace(park[|park| - 1])
    requires IsDigit(digit)
    ensures BaseballLocationAndField(park + " " + [digit]) == Success((Renamed(BaseballFieldsMap, park), "Field " + [digit]))
  {
    var combined := park + " " + [digit];
    assert combined[0] == park[0] && combined[|combined| - 1] == digit;
    StripUnchanged(combined);
    assert combined[..|combined| - 1] == park + [' '];
    StripTrailingSpace(park, ' ');
    StripUnchanged(park);
    assert Strip(combined[..|combined| - 1]) == park;
    assert BaseballLocationAndField(combined) == Success((Renamed(BaseballFieldsMap, park), "Field " + [digit]));
  }

  /** A park name that does not end in a digit is field number 1 of that park. */
  lemma BaseballLocationAndFieldUnnumbered(park: string)
    requires park != [] && !IsSpace(park[0]) && !IsSpace(park[|park| - 1]) && !IsDigit(park[|park| - 1])
    ensures BaseballLocationAndField(park) == Success((Renamed(BaseballFieldsMap, park), "Field 1"))
  {
    StripUnchanged(park);
    assert "Field " + "1" == "Field 1";
  }

  // ----- the readers -----

  /** `Event`: one game as written to the output; its fields are never reassigned. */
  datatype Event = Event(
    awayTeam: string,
    homeTeam: string,
    date: Date,
    startTime: Clock,
    endTime: Clock,
    location: string,
    field: string)

  /** The cells of a softball spreadsheet row that the reader uses, by column. */
  datatype SoftballSheetRow = SoftballSheetRow(
    gameNumber: Option<int>,  // column 0
    date: Date,               // column 2
    location: string,         // column 3
    startTime: Clock,         // column 4
    endTime: Clock,           // column 5
    awayTeam: string,         // column 6
    homeTeam: string)         // column 7

  /** The cells of a baseball spreadsheet row that the reader uses, by column. */
  datatype BaseballSheetRow = BaseballSheetRow(
    gameNumber: Option<int>,  // column 0
    date: Date,               // column 1
    homeTeam: string,         // column 3
    awayTeam: string,         // column 4
    location: string,         // column 7
    endText: string,          // column 11
    startText: string)        // column 12

  /** A game the readers keep: a numbered game with one of the league's teams, by its spreadsheet name. */
  predicate SoftballKept(row: SoftballSheetRow) {
    row.gameNumber.Some? && (row.awayTeam in TeamsMap || row.homeTeam in TeamsMap)
  }

  predicate BaseballKept(row: BaseballSheetRow) {
    row.gameNumber.Some? && (row.awayTeam in TeamsMap || row.homeTeam in TeamsMap)
  }

  /** The event of a kept softball row: renamed teams, the cells as read, and the split location. */
  function SoftballEvent(row: SoftballSheetRow): Event
  {
    var (location, field) := SplitLocationAndField(row.location);
    Event(TeamName(row.awayTeam), TeamName(row.homeTeam), row.date, row.startTime, row.endTime, location, field)
  }

  /**
   * The event of a kept baseball row. The location is split first, then the
   * start time (column 12) and the end time (column 11) are read as
   * "%H:%M:%S"; each step can raise.
   */
  function BaseballEvent(row: BaseballSheetRow): Result<Event, Fault>
  {
    var place :- BaseballLocationAndField(row.location);
    var start :- Parsed(ParseClock24(row.startText));
    var end :- Parsed(ParseClock24(row.endText));
    Success(Event(TeamName(row.awayTeam), TeamName(row.homeTeam), row.date, start, end, place.0, place.1))
  }

  /** `get_softball_events`: the events of the kept rows, one per row, in sheet order. */
  method GetSoftballEvents(rows: seq<SoftballSheetRow>) returns (events: seq<Event>)
    ensures |events| == |Filter(rows, SoftballKept)|
    ensures forall k :: 0 <= k < |events| ==> events[k] == SoftballEvent(Filter(rows, SoftballKept)[k])
  {
    events := [];
    var i := 0;
    while i < |rows|
      invariant 0 <= i <= |rows|
      invariant events == MapKept(rows[..i], SoftballKept, SoftballEvent)
    {
      var row := rows[i];
      assert rows[..i + 1][..i] == rows[..i];
      if row.gameNumber.Some? && (row.awayTeam in TeamsMap || row.homeTeam in TeamsMap) {
        events := events + [SoftballEvent(row)];
      }
      i := i + 1;
    }
    assert rows[..i] == rows;
    MapKeptFilter(rows, SoftballKept, SoftballEvent);
  }

  /** `get_baseball_events`: the events of the kept rows in sheet order; the first row that fails to read aborts. */
  method GetBaseballEvents(rows: seq<BaseballSheetRow>) returns (r: Result<seq<Event>, Fault>)
    ensures r == Collect(rows, Select(BaseballKept, BaseballEvent))
  {
    ghost var step := Select(BaseballKept, BaseballEvent);
    var events: seq<Event> := [];
    var i := 0;
    while i < |rows|
      invariant 0 <= i <= |rows|
      invariant Collect(rows[..i], step) == Success(events)
    {
      var row := rows[i];
      SelectOf(BaseballKept, BaseballEvent, row);
      if row.gameNumber.Some? && (row.awayTeam in TeamsMap || row.homeTeam in TeamsMap) {
        var event := BaseballEvent(row);
        if event.Failure? {
          CollectStops(rows, i, step, event.error);
          return Failure(event.error);
        }
        CollectNext(rows, i, step, events, [event.value]);
        events := events + [event.value];
      } else {
        CollectNext(rows, i, step, events, []);
        assert events + [] == events;
      }
      i := i + 1;
    }
    assert rows[..i] == rows;
    return Success(events);
  }

  /**
   * The baseball reader succeeds exactly when every kept row reads, and then
   * it returns the events of the kept rows, one each, in sheet order.
   */
  lemma BaseballEventsKept(rows: seq<BaseballSheetRow>)
    ensures Collect(rows, Select(BaseballKept, BaseballEvent)).Success?
        <==> forall row :: row in Filter(rows, BaseballKept) ==> BaseballEvent(row).Success?
    ensures Collect(rows, Select(BaseballKept, BaseballEvent)).Success? ==>
              var events := Collect(rows, Select(BaseballKept, BaseballEvent)).value;
              var kept := Filter(rows, BaseballKept);
              |events| == |kept| && forall k :: 0 <= k < |kept| ==> BaseballEvent(kept[k]) == Success(events[k])
  {
    CollectSelect(rows, BaseballKept, BaseballEvent);
  }

  /** One of the two teams of a league game is, after renaming, one of the league's own. */
  lemma LeagueTeamRenamed(away: string, home: string)
    requires away in TeamsMap || home in TeamsMap
    ensures TeamName(away) in TeamsMap.Values || TeamName(home) in TeamsMap.Values
  {
  }

  /** Every softball event has one of the league's teams, under the league's name for it. */
  lemma SoftballEventsLeague(rows: seq<SoftballSheetRow>, k: nat)
    requires k < |Filter(rows, SoftballKept)|
    ensures var e := SoftballEvent(Filter(rows, SoftballKept)[k]);
            e.awayTeam in TeamsMap.Values || e.homeTeam in TeamsMap.Values
  {
    var row := Filter(rows, SoftballKept)[k];
    assert row in Filter(rows, SoftballKept);
    LeagueTeamRenamed(row.awayTeam, row.homeTeam);
  }

  // ----- the output -----

  const CsvHeader: seq<string> := ["Away Team", "Home Team", "Date", "Start Time", "End Time", "Location", "Field"]

  predicate ValidEvent(e: Event) {
    ValidDate(e.date) && 1000 <= e.date.year && ValidClock(e.startTime) && ValidClock(e.endTime)
  }

  /** One row of `create_csv_from_events`. */
  function CsvRow(e: Event): seq<string>
    requires ValidEvent(e)
  {
    [e.awayTeam, e.homeTeam, DateText(e.date), TimeText(e.startTime), TimeText(e.endTime), e.location, e.field]
  }

  /** Each output row has a cell per header column, and its date and times read back as the event's. */
  lemma CsvRowReadsBack(e: Event)
    requires ValidEvent(e)
    ensures |CsvRow(e)| == |CsvHeader|
    ensures ParseMonthDayYear(CsvRow(e)[2]) == Some(e.date)
    ensures ParseHourMinute(CsvRow(e)[3]) == Some(Clock(e.startTime.hour, e.startTime.minute, 0))
    ensures ParseHourMinute(CsvRow(e)[4]) == Some(Clock(e.endTime.hour, e.endTime.minute, 0))
  {
    var row := CsvRow(e);
    assert row[2] == DateText(e.date) && row[3] == TimeText(e.startTime) && row[4] == TimeText(e.endTime);
    assert ParseMonthDayYear(row[2]) == Some(e.date) by {
      DateTextRoundTrip(e.date);
    }
    assert ParseHourMinute(row[3]) == Some(Clock(e.startTime.hour, e.startTime.minute, 0)) by {
      TimeTextRoundTrip(e.startTime);
    }
    assert ParseHourMinute(row[4]) == Some(Clock(e.endTime.hour, e.endTime.minute, 0)) by {
      TimeTextRoundTrip(e.endTime);
    }
  }
}

/**
 * scheduler.py: normalizing the location and day names of the league's
 * schedules, indexing the park permits by (date, location), and reading
 * the softball and baseball game files into events.
 */
module Scheduler {
  import opened Wrappers
  import opened Faults
  import opened Strings
  import opened Decimal
  import opened Calendar
  import opened Batch

  /** One CSV row. */
  type Row = seq<string>

  // ----- locations and days -----

  const HomeFields: seq<string> := ["LW1", "LW3", "LW4", "LW5", "LW6", "Lower Ross", "B.F. Day"]

  /** `is_home_field`: the league's own fields, by their normalized names. */
  predicate IsHomeField(location: string)
    ensures IsHomeField(location) <==> NormalName(location) && location !in {"LW0", "LW2", "LW7", "LW8", "LW9"}
  {
    if |location| == 3 && location[..2] == "LW" && IsDigit(location[2]) then
      var c := location[2];
      assert location == ['L', 'W', c];
      assert c in "0123456789";
      location in HomeFields
    else
      location in HomeFields
  }

  /**
   * `get_normalized_location`. A Lower Woodland field is named by its trailing
   * digit; one without a digit reaches `assert false`, and evaluating the
   * undefined name `false` raises NameError.
   */
  function NormalizedLocation(location: string): (r: Result<string, Fault>)
    ensures r.Failure? ==> r.error == NameError("false")
    ensures r.Success? ==> r.value == location || NormalName(r.value)
  {
    var lower := Lower(location);
    if Contains(lower, "woodland") then
      if IsDigit(location[|location| - 1]) then Success("LW" + [location[|location| - 1]])
      else Failure(NameError("false"))
    else if Contains(lower, "ross") then Success("Lower Ross")
    else if Contains(lower, "b f day") then Success("B.F. Day")
    else Success(location)
  }

  /** The names normalization produces for the league's fields. */
  predicate NormalName(location: string) {
    (|location| == 3 && location[..2] == "LW" && IsDigit(location[2])) || location == "Lower Ross" || location == "B.F. Day"
  }

  /** Normalization looks only at the lower-cased name: which keywords it contains decides the result. */
  lemma NormalizedByKeywords(location: string, lower: string)
    requires Lower(location) == lower && !Contains(lower, "woodland")
    ensures Contains(lower, "ross") ==> NormalizedLocation(location) == Success("Lower Ross")
    ensures !Contains(lower, "ross") && Contains(lower, "b f day") ==> NormalizedLocation(location) == Success("B.F. Day")
    ensures !Contains(lower, "ross") && !Contains(lower, "b f day") ==> NormalizedLocation(location) == Success(location)
  {
  }

  lemma LowerRossFixed(location: string)
    requires location == "Lower Ross"
    ensures NormalizedLocation(location) == Success(location)
  {
    var lower := Lower(location);
    assert |lower| == 10;
    assert !Contains(lower, "woodland") by {
      assert forall i :: 0 <= i < |lower| ==> lower[i] != 'd';
      MissingChar(lower, "woodland", 'd');
    }
    assert Contains(lower, "ross") by {
      assert lower[6] == 'r' && lower[7] == 'o' && lower[8] == 's' && lower[9] == 's';
      assert lower[6..10] == "ross";
      ContainsIff(lower, "ross");
      assert OccursAt(lower, "ross", 6);
    }
    NormalizedByKeywords(location, lower);
  }

  lemma BFDayFixed(location: string)
    requires location == "B.F. Day"
    ensures NormalizedLocation(location) == Success(location)
  {
    var lower := Lower(location);
    assert |lower| == 8;
    assert !Contains(lower, "woodland") by {
      assert forall i :: 0 <= i < |lower| ==> lower[i] != 'w';
      MissingChar(lower, "woodland", 'w');
    }
    assert !Contains(lower, "ross") by {
      assert forall i :: 0 <= i < |lower| ==> lower[i] != 'r';
      MissingChar(lower, "ross", 'r');
    }
    assert !Contains(lower, "b f day") by {
      assert lower[1] == '.' && lower[2] == 'f';
      ContainsIff(lower, "b f day");
      forall i | 0 <= i <= 1 ensures !OccursAt(lower, "b f day", i) {
        assert lower[i..i + 7][1] == lower[i + 1];
      }
    }
    NormalizedByKeywords(location, lower);
  }

  /** The names normalization produces for the league's fields map to themselves. */
  lemma NormalNameFixed(location: string)
    requires NormalName(location)
    ensures NormalizedLocation(location) == Success(location)
  {
    if location == "Lower Ross" {
      LowerRossFixed(location);
    } else if location == "B.F. Day" {
      BFDayFixed(location);
    }
  }

  /** Normalizing a normalized location changes nothing. */
  lemma NormalizedLocationIdempotent(location: string)
    requires NormalizedLocation(location).Success?
    ensures NormalizedLocation(NormalizedLocation(location).value) == NormalizedLocation(location)
  {
    var r := NormalizedLocation(location).value;
    if r != location {
      assert NormalName(r);
      NormalNameFixed(r);
    }
  }

  /**
   * Normalization fails exactly on a Woodland name without a trailing field digit; the
   * source's `assert false` names an undefined `false`, so the error raised is a NameError.
   * Otherwise the name is kept or replaced by one of the normalized names.
   */
  lemma NormalizedLocationOutcome(location: string)
    ensures NormalizedLocation(location).Failure? <==>
              Contains(Lower(location), "woodland") && |location| > 0 && !IsDigit(location[|location| - 1])
    ensures NormalizedLocation(location).Failure? ==> NormalizedLocation(location).error == NameError("false")
    ensures NormalizedLocation(location).Success? ==>
              NormalizedLocation(location).value == location || NormalName(NormalizedLocation(location).value)
  {
    var lower := Lower(location);
    if Contains(lower, "woodland") {
      WoodlandOutcome(location, lower);
    } else {
      NormalizedByKeywords(location, lower);
    }
  }

  /** A Woodland Park name keeps only its last character, which must be a digit. */
  lemma WoodlandOutcome(location: string, lower: string)
    requires Lower(location) == lower && Contains(lower, "woodland")
    ensures |location| > 0
    ensures IsDigit(location[|location| - 1]) ==> NormalizedLocation(location) == Success("LW" + [location[|location| - 1]])
    ensures IsDigit(location[|location| - 1]) ==> NormalName("LW" + [location[|location| - 1]])
    ensures !IsDigit(location[|location| - 1]) ==> NormalizedLocation(location) == Failure(NameError("false"))
  {
    var c := location[|location| - 1];
    var name := "LW" + [c];
    assert name[..2] == "LW" && name[2] == c;
  }

  /** The home fields are among the normalized names, so normalization keeps them. */
  lemma HomeFieldsNormalized(location: string)
    requires IsHomeField(location)
    ensures NormalizedLocation(location) == Success(location)
  {
    NormalNameFixed(location);
  }

  /** `get_normalized_day`: the first three characters. */
  function NormalizedDay(day: string): (r: string)
    ensures |r| == if |day| < 3 then |day| else 3
    ensures StartsWith(day, r)
  {
    Head(day, 3)
  }

  // ----- get_permit_dict -----

  /** A permit's date and normalized location. */
  datatype Slot = Slot(date: Date, location: string)

  /** The key a permit row is filed under: row[0] read as "%d-%b-%y", then row[3] normalized. */
  function PermitSlot(row: Row): Result<Slot, Fault>
  {
    var dateCell :- At(row, 0);
    var date :- Parsed(ParseDayMonYy(dateCell));
    var locationCell :- At(row, 3);
    var location :- NormalizedLocation(locationCell);
    Success(Slot(date, location))
  }

  /** What one permit row contributes: its key and its raw time window, row[2]. */
  function PermitEntry(row: Row): Result<seq<(Slot, string)>, Fault>
  {
    var slot :- PermitSlot(row);
    var window :- At(row, 2);
    Success([(slot, window)])
  }

  /** The map built by storing the entries in order. */
  function MapOf(entries: seq<(Slot, string)>): map<Slot, string>
    decreases |entries|
  {
    if entries == [] then map[]
    else MapOf(entries[..|entries| - 1])[entries[|entries| - 1].0 := entries[|entries| - 1].1]
  }

  /** `get_permit_dict`: StopIteration on an empty file; otherwise the header is skipped. */
  function PermitDict(file: seq<Row>): (r: Result<map<Slot, string>, Fault>)
    ensures file == [] ==> r == Failure(StopIteration)
    ensures file != [] ==> (r.Success? <==> forall i :: 1 <= i < |file| ==> PermitEntry(file[i]).Success?)
    ensures file != [] && r.Failure? ==>
              exists i :: 1 <= i < |file| && PermitEntry(file[i]) == Failure(r.error)
                          && forall j :: 1 <= j < i ==> PermitEntry(file[j]).Success?
  {
    if file == [] then Failure(StopIteration)
    else
      var rows := file[1..];
      CollectSucceeds(rows, PermitEntry);
      var entries := Collect(rows, PermitEntry);
      if entries.Failure? then
        CollectFirstFault(rows, PermitEntry);
        Failure(entries.error)
      else
        Success(MapOf(entries.value))
  }

  method GetPermitDict(file: seq<Row>) returns (r: Result<map<Slot, string>, Fault>)
    ensures r == PermitDict(file)
  {
    if file == [] {
      return Failure(StopIteration);
    }
    var rows := file[1..];
    var permits: map<Slot, string> := map[];
    ghost var entries: seq<(Slot, string)> := [];
    var i := 0;
    while i < |rows|
      invariant 0 <= i <= |rows|
      invariant Collect(rows[..i], PermitEntry) == Success(entries)
      invariant permits == MapOf(entries)
    {
      var row := rows[i];
      var slot := PermitSlot(row);
      if slot.Failure? {
        CollectStops(rows, i, PermitEntry, slot.error);
        return Failure(slot.error);
      }
      assert |row| > 3;
      CollectNext(rows, i, PermitEntry, entries, [(slot.value, row[2])]);
      permits := permits[slot.value := row[2]];
      entries := entries + [(slot.value, row[2])];
      i := i + 1;
    }
    assert rows[..i] == rows;
    return Success(permits);
  }

  /** The map holds the keys of the entries, each with the value of its last entry. */
  lemma {:induction false} MapOfLastWins(entries: seq<(Slot, string)>)
    ensures forall k :: k in MapOf(entries) <==> exists i :: 0 <= i < |entries| && entries[i].0 == k
    ensures forall i :: 0 <= i < |entries| && (forall j :: i < j < |entries| ==> entries[j].0 != entries[i].0) ==>
              entries[i].0 in MapOf(entries) && MapOf(entries)[entries[i].0] == entries[i].1
    decreases |entries|
  {
    if entries != [] {
      var init := entries[..|entries| - 1];
      MapOfLastWins(init);
      assert forall i :: 0 <= i < |init| ==> init[i] == entries[i];
    }
  }

  /** Storing the one entry of each row, in row order: the last row with a key decides its value. */
  lemma CollectLastWins(rows: seq<Row>, entry: Row -> Result<seq<(Slot, string)>, Fault>)
    requires forall i :: 0 <= i < |rows| ==> entry(rows[i]).Success? && |entry(rows[i]).value| == 1
    ensures Collect(rows, entry).Success?
    ensures forall k :: k in MapOf(Collect(rows, entry).value) <==>
              exists i :: 0 <= i < |rows| && entry(rows[i]).value[0].0 == k
    ensures forall i :: 0 <= i < |rows| && (forall j :: i < j < |rows| ==> entry(rows[j]).value[0].0 != entry(rows[i]).value[0].0) ==>
              MapOf(Collect(rows, entry).value)[entry(rows[i]).value[0].0] == entry(rows[i]).value[0].1
  {
    CollectSucceeds(rows, entry);
    var entries := Collect(rows, entry).value;
    CollectEach(rows, entry);
    MapOfLastWins(entries);
  }

  lemma PermitEntryOf(row: Row)
    requires PermitEntry(row).Success?
    ensures PermitSlot(row).Success? && |row| > 2
    ensures PermitEntry(row).value == [(PermitSlot(row).value, row[2])]
  {
  }

  /**
   * The permit index has one entry per (date, location) of the permit rows; a
   * later row with the same key overwrites an earlier one, and the value is
   * that row's raw row[2].
   */
  lemma PermitDictLastWins(file: seq<Row>)
    requires PermitDict(file).Success?
    ensures forall k :: k in PermitDict(file).value <==> exists i :: 1 <= i < |file| && PermitSlot(file[i]) == Success(k)
    ensures forall i :: 1 <= i < |file| && (forall j :: i < j < |file| ==> PermitSlot(file[j]) != PermitSlot(file[i])) ==>
              PermitSlot(file[i]).Success? && |file[i]| > 2 && PermitDict(file).value[PermitSlot(file[i]).value] == file[i][2]
  {
    var rows := file[1..];
    CollectSucceeds(rows, PermitEntry);
    forall i | 0 <= i < |rows| ensures PermitEntry(rows[i]).Success? && |PermitEntry(rows[i]).value| == 1 {
      PermitEntryOf(rows[i]);
    }
    CollectLastWins(rows, PermitEntry);
    var index := PermitDict(file).value;
    assert index == MapOf(Collect(rows, PermitEntry).value);
    forall k ensures k in index <==> exists i :: 1 <= i < |file| && PermitSlot(file[i]) == Success(k) {
      if k in index {
        var i :| 0 <= i < |rows| && PermitEntry(rows[i]).value[0].0 == k;
        PermitEntryOf(rows[i]);
        assert PermitSlot(file[i + 1]) == Success(k);
      }
      if exists i :: 1 <= i < |file| && PermitSlot(file[i]) == Success(k) {
        var i :| 1 <= i < |file| && PermitSlot(file[i]) == Success(k);
        assert rows[i - 1] == file[i];
        PermitEntryOf(rows[i - 1]);
      }
    }
    forall i | 1 <= i < |file| && (forall j :: i < j < |file| ==> PermitSlot(file[j]) != PermitSlot(file[i]))
      ensures PermitSlot(file[i]).Success? && |file[i]| > 2 && index[PermitSlot(file[i]).value] == file[i][2]
    {
      assert rows[i - 1] == file[i];
      PermitEntryOf(rows[i - 1]);
      forall j | i - 1 < j < |rows| ensures PermitEntry(rows[j]).value[0].0 != PermitEntry(rows[i - 1]).value[0].0 {
        assert rows[j] == file[j + 1];
        PermitEntryOf(rows[j]);
      }
    }
  }

  // ----- time_str / date_str -----

  /** `strftime("%H:%M")`: both fields zero-padded to two digits. */
  function TimeStr(t: Clock): (r: string)
    requires ValidClock(t)
    ensures |r| == 5 && r[2] == ':' && AllDigits(r[..2]) && AllDigits(r[3..])
  {
    Pad(t.hour as nat, 2) + ":" + Pad(t.minute as nat, 2)
  }

  /**
   * The rendering reads back as the same hour and minute; it always has five
   * characters, and an hour before 10 keeps its leading zero.
   */
  lemma TimeStrRoundTrip(t: Clock)
    requires ValidClock(t)
    ensures ParseHourMinute(TimeStr(t)) == Some(Clock(t.hour, t.minute, 0))
    ensures |TimeStr(t)| == 5 && (t.hour < 10 ==> TimeStr(t)[0] == '0')
  {
    var h, m := Pad(t.hour as nat, 2), Pad(t.minute as nat, 2);
    PadTwo(t.hour as nat);
    PadTwo(t.minute as nat);
    ValueOfPad(t.hour as nat, 2);
    ValueOfPad(t.minute as nat, 2);
    assert TimeStr(t) == h + (":" + m);
    NumberOfNumeral(h, ":" + m, 1, 2, 0, 23);
    LiteralOf(":", m);
    assert m == m + [];
    NumberOfNumeral(m, [], 1, 2, 0, 59);
  }

  /** `strftime("%m/%d/%Y")`: month and day zero-padded. */
  function DateStr(d: Date): (r: string)
    requires ValidDate(d)
    ensures |r| == 6 + |Show(d.year as nat)| && r[2] == '/' && r[5] == '/'
    ensures AllDigits(r[..2]) && AllDigits(r[3..5]) && AllDigits(r[6..])
  {
    Pad(d.month as nat, 2) + "/" + Pad(d.day as nat, 2) + "/" + Show(d.year as nat)
  }

  /** The rendering reads back as the same date, for four-digit years. */
  lemma DateStrRoundTrip(d: Date)
    requires ValidDate(d) && 1000 <= d.year
    ensures ParseMonthDayYear(DateStr(d)) == Some(d)
  {
    var m, dd, y := Pad(d.month as nat, 2), Pad(d.day as nat, 2), Show(d.year as nat);
    var tail2 := "/" + y;
    var tail1 := "/" + (dd + tail2);
    assert DateStr(d) == m + tail1;
    PaddedField(d.month as nat, tail1, 1, 12);
    LiteralOf("/", dd + tail2);
    PaddedField(d.day as nat, tail2, 1, 31);
    LiteralOf("/", y);
    YearField(d.year as nat);
    MonthDayYearSteps(DateStr(d), d, tail1, dd + tail2, tail2, y);
  }

  // ----- the game readers -----

  /** `Event`: a game as read from a schedule file; its fields are never reassigned. */
  datatype Event = Event(
    date: Date, day: string, gameNumber: string, awayTeam: string, homeTeam: string,
    startTime: Clock, endTime: Clock, location: string)

  /** `strptime(row[i], "%I:%M %p")`. */
  function Clock12Cell(row: Row, i: nat): Result<Clock, Fault>
  {
    var cell :- At(row, i);
    Parsed(ParseClock12(cell))
  }

  /** `strptime(row[i], "%H:%M:%S")`. */
  function Clock24Cell(row: Row, i: nat): Result<Clock, Fault>
  {
    var cell :- At(row, i);
    Parsed(ParseClock24(cell))
  }

  /** `get_normalized_location(row[i])`. */
  function LocationCell(row: Row, i: nat): Result<string, Fault>
  {
    var cell :- At(row, i);
    NormalizedLocation(cell)
  }

  /** `get_normalized_day(row[i])`. */
  function DayCell(row: Row, i: nat): Result<string, Fault>
  {
    var cell :- At(row, i);
    Success(NormalizedDay(cell))
  }

  /** `get_softball_event_from_row`: the arguments are evaluated in the order written. */
  function SoftballEvent(row: Row): (r: Result<Event, Fault>)
    ensures r.Success? ==> |row| > 3 && NormalizedLocation(row[3]) == Success(r.value.location)
  {
    var dateCell :- At(row, 2);
    var date :- Parsed(ParseMonthDayYear(dateCell));
    // Columns 1 and 0 exist once column 2 has been read.
    var day := NormalizedDay(row[1]);
    var game := row[0];
    var away :- At(row, 6);
    var home :- At(row, 7);
    var start :- Clock12Cell(row, 4);
    var end :- Clock12Cell(row, 5);
    var location :- LocationCell(row, 3);
    Success(Event(date, day, game, away, home, start, end, location))
  }

  /** A league game: "NCLL" appears in the away or the home team. */
  predicate IsNcllGame(e: Event) {
    Contains(e.awayTeam, "NCLL") || Contains(e.homeTeam, "NCLL")
  }

  /**
   * One pass of the softball loop, given how a row is read: a row with an
   * empty game number is skipped, and a game is kept if it is a league game.
   */
  function LeagueGameStep(read: Row -> Result<Event, Fault>): Row -> Result<seq<Event>, Fault>
  {
    row =>
      var game :- At(row, 0);
      if |game| == 0 then Success([])
      else
        var e :- read(row);
        Success(if IsNcllGame(e) then [e] else [])
  }

  /** `get_softball_events`: StopIteration on an empty file; otherwise the header is skipped. */
  function SoftballEvents(file: seq<Row>): Result<seq<Event>, Fault>
  {
    if file == [] then Failure(StopIteration) else Collect(file[1..], LeagueGameStep(SoftballEvent))
  }

  method GetSoftballEvents(file: seq<Row>) returns (r: Result<seq<Event>, Fault>)
    ensures r == SoftballEvents(file)
  {
    if file == [] {
      return Failure(StopIteration);
    }
    var rows := file[1..];
    ghost var step := LeagueGameStep(SoftballEvent);
    var events: seq<Event> := [];
    var i := 0;
    while i < |rows|
      invariant 0 <= i <= |rows|
      invariant Collect(rows[..i], step) == Success(events)
    {
      var row := rows[i];
      if |row| == 0 {
        CollectStops(rows, i, step, IndexError);
        return Failure(IndexError);
      }
      if |row[0]| == 0 {
        CollectNext(rows, i, step, events, []);
        assert events + [] == events;
        i := i + 1;
        continue;
      }
      var event := SoftballEvent(row);
      if event.Failure? {
        CollectStops(rows, i, step, event.error);
        return Failure(event.error);
      }
      if Contains(event.value.awayTeam, "NCLL") || Contains(event.value.homeTeam, "NCLL") {
        CollectNext(rows, i, step, events, [event.value]);
        events := events + [event.value];
      } else {
        CollectNext(rows, i, step, events, []);
        assert events + [] == events;
      }
      i := i + 1;
    }
    assert rows[..i] == rows;
    return Success(events);
  }

  /** The event's location is already normalized. */
  lemma SoftballEventLocation(row: Row)
    requires SoftballEvent(row).Success?
    ensures NormalizedLocation(SoftballEvent(row).value.location) == Success(SoftballEvent(row).value.location)
  {
    NormalizedLocationIdempotent(row[3]);
  }

  /**
   * The league-game loop keeps exactly the league games of the rows with a game
   * number: every event kept is one, read from some such row, and every such row
   * reads as an event that is kept exactly when it is a league game.
   */
  lemma LeagueGamesKept(rows: seq<Row>, read: Row -> Result<Event, Fault>)
    requires Collect(rows, LeagueGameStep(read)).Success?
    ensures forall e :: e in Collect(rows, LeagueGameStep(read)).value ==>
              IsNcllGame(e) && exists i :: 0 <= i < |rows| && |rows[i]| > 0 && |rows[i][0]| > 0 && read(rows[i]) == Success(e)
    ensures forall i :: 0 <= i < |rows| ==> |rows[i]| > 0
    ensures forall i :: 0 <= i < |rows| && |rows[i]| > 0 && |rows[i][0]| > 0 ==>
              read(rows[i]).Success? &&
              (IsNcllGame(read(rows[i]).value) <==> read(rows[i]).value in Collect(rows, LeagueGameStep(read)).value)
  {
    var step := LeagueGameStep(read);
    var events := Collect(rows, step).value;
    CollectMembers(rows, step);
    forall i | 0 <= i < |rows| && |rows[i]| > 0 && |rows[i][0]| > 0
      ensures read(rows[i]).Success?
      ensures IsNcllGame(read(rows[i]).value) <==> read(rows[i]).value in events
    {
      var e := read(rows[i]).value;
      if e in events {
        var j :| 0 <= j < |rows| && e in step(rows[j]).value;
      }
    }
  }

  /** Every event `get_softball_events` returns is a league game, read from a row with a game number, at a normalized location. */
  lemma SoftballEventsSound(file: seq<Row>)
    requires SoftballEvents(file).Success?
    ensures forall e :: e in SoftballEvents(file).value ==>
              IsNcllGame(e) && NormalizedLocation(e.location) == Success(e.location) &&
              exists i :: 1 <= i < |file| && |file[i]| > 0 && |file[i][0]| > 0 && SoftballEvent(file[i]) == Success(e)
  {
    var rows := file[1..];
    var events := SoftballEvents(file).value;
    assert Collect(rows, LeagueGameStep(SoftballEvent)) == Success(events);
    LeagueGamesKept(rows, SoftballEvent);
    forall e | e in events
      ensures IsNcllGame(e) && NormalizedLocation(e.location) == Success(e.location)
      ensures exists i :: 1 <= i < |file| && |file[i]| > 0 && |file[i][0]| > 0 && SoftballEvent(file[i]) == Success(e)
    {
      var i :| 0 <= i < |rows| && |rows[i]| > 0 && |rows[i][0]| > 0 && SoftballEvent(rows[i]) == Success(e);
      SoftballEventLocation(rows[i]);
      assert rows[i] == file[i + 1];
    }
  }

  /** Every row of `get_softball_events` with a game number reads as an event, which is kept exactly when it is a league game. */
  lemma SoftballEventsComplete(file: seq<Row>)
    requires SoftballEvents(file).Success?
    ensures forall i :: 1 <= i < |file| ==> |file[i]| > 0
    ensures forall i :: 1 <= i < |file| && |file[i]| > 0 && |file[i][0]| > 0 ==>
              SoftballEvent(file[i]).Success? &&
              (IsNcllGame(SoftballEvent(file[i]).value) <==> SoftballEvent(file[i]).value in SoftballEvents(file).value)
  {
    var rows := file[1..];
    var events := SoftballEvents(file).value;
    assert Collect(rows, LeagueGameStep(SoftballEvent)) == Success(events);
    LeagueGamesKept(rows, SoftballEvent);
    forall i | 1 <= i < |file|
      ensures rows[i - 1] == file[i]
    {
    }
  }

  /** `get_baseball_event_from_row`: the arguments are evaluated in the order written. */
  function BaseballEvent(row: Row): Result<Event, Fault>
  {
    var dateCell :- At(row, 1);
    var date :- Parsed(ParseIsoDate(dateCell));
    var day :- DayCell(row, 2);
    var game :- At(row, 0);
    var away :- At(row, 4);
    var home :- At(row, 3);
    var start :- Clock24Cell(row, 12);
    var end :- Clock24Cell(row, 11);
    var location :- LocationCell(row, 7);
    Success(Event(date, day, game, away, home, start, end, location))
  }

  function BaseballStep(row: Row): Result<seq<Event>, Fault>
  {
    var e :- BaseballEvent(row);
    Success([e])
  }

  /** `get_baseball_events`: StopIteration on an empty file; otherwise every data row is read. */
  function BaseballEvents(file: seq<Row>): Result<seq<Event>, Fault>
  {
    if file == [] then Failure(StopIteration) else Collect(file[1..], BaseballStep)
  }

  method GetBaseballEvents(file: seq<Row>) returns (r: Result<seq<Event>, Fault>)
    ensures r == BaseballEvents(file)
  {
    if file == [] {
      return Failure(StopIteration);
    }
    var rows := file[1..];
    var events: seq<Event> := [];
    var i := 0;
    while i < |rows|
      invariant 0 <= i <= |rows|
      invariant Collect(rows[..i], BaseballStep) == Success(events)
    {
      var event := BaseballEvent(rows[i]);
      if event.Failure? {
        CollectStops(rows, i, BaseballStep, event.error);
        return Failure(event.error);
      }
      CollectNext(rows, i, BaseballStep, events, [event.value]);
      events := events + [event.value];
      i := i + 1;
    }
    assert rows[..i] == rows;
    return Success(events);
  }

  /** The baseball reader keeps every data row, in order: one event per row after the header. */
  lemma BaseballEventsAll(file: seq<Row>)
    requires BaseballEvents(file).Success?
    ensures |BaseballEvents(file).value| == |file| - 1
    ensures forall i :: 1 <= i < |file| ==> BaseballEvent(file[i]).Success? && BaseballEvents(file).value[i - 1] == BaseballEvent(file[i]).value
  {
    var rows := file[1..];
    CollectSucceeds(rows, BaseballStep);
    CollectEach(rows, BaseballStep);
    forall i | 1 <= i < |file| ensures BaseballEvent(file[i]).Success? && BaseballEvents(file).value[i - 1] == BaseballEvent(file[i]).value {
      assert rows[i - 1] == file[i];
    }
  }
}

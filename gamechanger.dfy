/**
 * paul_schedule_to_gamechanger.py: turning a summer-ball schedule into the
 * 28-column rows of a SportsEngine import. The league's own teams are the
 * ones whose id contains "NC-"; the league team always becomes team 1.
 */
module GameChanger {
  import opened Wrappers
  import opened Faults
  import opened Strings
  import opened Batch

  type Row = seq<string>

  /** `new_csv_headers`: the SportsEngine import columns, in order. */
  const NewCsvHeaders: seq<string> := [
    "Start_Date", "Start_Time", "End_Date", "End_Time", "Title", "Description",
    "Location", "Location_URL", "Location_Details", "All_Day_Event", "Event_Type", "Tags",
    "Team1_ID", "Team1_Division_ID", "Team1_Is_Home", "Team2_ID", "Team2_Division_ID", "Team2_Name",
    "Custom_Opponent", "Event_ID", "Game_ID", "Affects_Standings", "Points_Win", "Points_Loss",
    "Points_Tie", "Points_OT_Win", "Points_OT_Loss", "Division_Override"
  ]

  /** The league marks its own team ids with "NC-". */
  predicate IsLeagueId(team: string) {
    Contains(team, "NC-")
  }

  /**
   * `get_location`, given the location cell (column 9) and the field-number
   * cell (column 10): the lower Ross field and byes have fixed names, any
   * other location is followed by a space and its field number.
   */
  function Location(location: string, fieldNumber: string): (r: string)
    ensures location == "Ross Playfield Lower Ballfield" ==> r == "Lower Ross"
    ensures location != "Ross Playfield Lower Ballfield" && StartsWith(location, "BYE") ==> r == "BYE"
    ensures location != "Ross Playfield Lower Ballfield" && !StartsWith(location, "BYE") ==> r == location + " " + fieldNumber
  {
    HeadIsStartsWith(location, "BYE");
    if location == "Ross Playfield Lower Ballfield" then "Lower Ross"
    else if Head(location, 3) == "BYE" then "BYE"
    else location + " " + fieldNumber
  }

  /**
   * `is_row_ncll`: the home team (column 12) or the away team (column 13) is
   * one of the league's. The `or` stops at a league home team, so a row that
   * ends at column 12 is still read when that team is the league's.
   */
  function IsRowNcll(row: Row): (r: Result<bool, Fault>)
    ensures |row| >= 14 ==> r == Success(IsLeagueId(row[12]) || IsLeagueId(row[13]))
    ensures |row| == 13 ==> r == (if IsLeagueId(row[12]) then Success(true) else Failure(IndexError))
    ensures |row| < 13 ==> r == Failure(IndexError)
  {
    var home :- At(row, 12);
    if IsLeagueId(home) then Success(true)
    else
      var away :- At(row, 13);
      Success(IsLeagueId(away))
  }

  /**
   * A SportsEngine game row: both dates are the game's date, "Game" is the
   * title and the event type, and every column not given is empty.
   */
  function GameRow(date: string, start: string, end: string, location: string,
                   team1: string, team1IsHome: string, team2Id: string, team2Name: string): (r: Row)
    ensures |r| == |NewCsvHeaders|
  {
    [date, start, date, end, "Game", "", location, "", "", "",
     "Game", "", team1, "", team1IsHome, team2Id, "", team2Name, "", "",
     "", "", "", "", "", "", "", ""]
  }

  /** The columns that `GameRow` names, and blanks everywhere else, make up that row. */
  lemma GameRowOf(s: Row, date: string, start: string, end: string, location: string,
                  team1: string, team1IsHome: string, team2Id: string, team2Name: string)
    requires |s| == 28
    requires s[0] == s[2] == date && s[1] == start && s[3] == end && s[4] == s[10] == "Game" && s[6] == location
    requires s[12] == team1 && s[14] == team1IsHome && s[15] == team2Id && s[17] == team2Name
    requires forall j :: 0 <= j < 28 && j !in {0, 1, 2, 3, 4, 6, 10, 12, 14, 15, 17} ==> s[j] == ""
    ensures s == GameRow(date, start, end, location, team1, team1IsHome, team2Id, team2Name)
  {
  }

  /** Where `GameRow` puts each of its arguments; every other column is blank. */
  lemma GameRowColumns(date: string, start: string, end: string, location: string,
                       team1: string, team1IsHome: string, team2Id: string, team2Name: string)
    ensures var r := GameRow(date, start, end, location, team1, team1IsHome, team2Id, team2Name);
            r[0] == r[2] == date && r[1] == start && r[3] == end && r[4] == r[10] == "Game" && r[6] == location
            && r[12] == team1 && r[14] == team1IsHome && r[15] == team2Id && r[17] == team2Name
    ensures var r := GameRow(date, start, end, location, team1, team1IsHome, team2Id, team2Name);
            forall j :: 0 <= j < 28 && j !in {0, 1, 2, 3, 4, 6, 10, 12, 14, 15, 17} ==> r[j] == ""
  {
    var r := GameRow(date, start, end, location, team1, team1IsHome, team2Id, team2Name);
    forall j | 0 <= j < 28 && j !in {0, 1, 2, 3, 4, 6, 10, 12, 14, 15, 17}
      ensures r[j] == ""
    {
      assert j in {5, 7, 8, 9, 11, 13, 16} || 18 <= j;
    }
  }

  /**
   * The row `convert_row` builds: both dates from column 3, the times from
   * columns 6 and 7, the league team as team 1 (home when it is the home team)
   * and the opponent as team 2, by id when it is a league id and by name
   * otherwise. A row too short for column 13 raises IndexError, and one with
   * no league team fails the assertion.
   */
  function ConvertedRow(oldRow: Row): (r: Result<Row, Fault>)
    ensures r.Failure? ==> r.error in {IndexError, AssertionError}
    ensures r.Success? ==> |r.value| == |NewCsvHeaders| && IsLeagueId(r.value[12])
    ensures r.Success? ==> |oldRow| >= 14 && r.value[12] in {oldRow[12], oldRow[13]}
  {
    if |oldRow| < 14 then Failure(IndexError)
    else
      var home, away := oldRow[12], oldRow[13];
      if !IsLeagueId(home) && !IsLeagueId(away) then Failure(AssertionError)
      else
        var teams := TeamColumns(home, away);
        Success(GameRow(oldRow[3], oldRow[6], oldRow[7], Location(oldRow[9], oldRow[10]), teams.0, teams.1, teams.2, teams.3))
  }

  /**
   * Team 1's id and home flag, and team 2's id and name: the league team is
   * team 1, home when it is the home team; the opponent is named by id when
   * that is a league id and by name otherwise.
   */
  function TeamColumns(home: string, away: string): (string, string, string, string)
  {
    var team1 := if IsLeagueId(home) then home else away;
    var team1IsHome := if IsLeagueId(home) then "1" else "";
    var opponent := if IsLeagueId(home) then away else home;
    (team1, team1IsHome, if IsLeagueId(opponent) then opponent else "", if IsLeagueId(opponent) then "" else opponent)
  }

  /**
   * With a league team on either side, team 1 is a league id, home exactly when the
   * home team is one; team 2 sits in exactly one of its two columns, and the two
   * teams are the original pair.
   */
  lemma TeamColumnsSplit(home: string, away: string)
    requires IsLeagueId(home) || IsLeagueId(away)
    ensures var t := TeamColumns(home, away);
            IsLeagueId(t.0) && (t.1 == "1" <==> IsLeagueId(home))
    ensures var t := TeamColumns(home, away);
            (IsLeagueId(t.2) && t.3 == "") || (t.2 == "" && !IsLeagueId(t.3))
    ensures var t := TeamColumns(home, away);
            if t.1 == "1" then t.0 == home && t.2 + t.3 == away else t.0 == away && t.2 + t.3 == home
  {
    var t := TeamColumns(home, away);
    assert t.2 == "" ==> t.2 + t.3 == t.3;
    assert t.3 == "" ==> t.2 + t.3 == t.2;
  }

  lemma ConvertedRowIs(oldRow: Row, row: Row)
    requires |oldRow| >= 14 && (IsLeagueId(oldRow[12]) || IsLeagueId(oldRow[13]))
    requires var teams := TeamColumns(oldRow[12], oldRow[13]);
             row == GameRow(oldRow[3], oldRow[6], oldRow[7], Location(oldRow[9], oldRow[10]), teams.0, teams.1, teams.2, teams.3)
    ensures ConvertedRow(oldRow) == Success(row)
  {
  }

  /**
   * `convert_row`: overwrites slots of a row of empty strings one by one, then moves a team 2
   * that is not a league id from the id column to the name column.
   */
  method ConvertRow(oldRow: Row) returns (r: Result<Row, Fault>)
    ensures r == ConvertedRow(oldRow)
  {
    if |oldRow| < 14 {
      return Failure(IndexError);
    }
    var l: seq<string> := seq(|NewCsvHeaders|, _ => "");
    l := l[0 := oldRow[3]];
    l := l[1 := oldRow[6]];
    l := l[2 := oldRow[3]];
    l := l[3 := oldRow[7]];
    l := l[4 := "Game"];
    l := l[6 := Location(oldRow[9], oldRow[10])];
    l := l[10 := "Game"];
    var oldHome, oldAway := oldRow[12], oldRow[13];
    if IsLeagueId(oldHome) {
      l := l[12 := oldHome];
      l := l[14 := "1"];
      l := l[15 := oldAway];
    } else {
      if !IsLeagueId(oldAway) {
        return Failure(AssertionError);
      }
      l := l[12 := oldAway];
      l := l[14 := ""];
      l := l[15 := oldHome];
    }
    if !IsLeagueId(l[15]) {
      l := l[17 := l[15]];
      l := l[15 := ""];
    }
    ghost var teams := TeamColumns(oldHome, oldAway);
    assert (l[12], l[14], l[15], l[17]) == teams;
    GameRowOf(l, oldRow[3], oldRow[6], oldRow[7], Location(oldRow[9], oldRow[10]), teams.0, teams.1, teams.2, teams.3);
    ConvertedRowIs(oldRow, l);
    return Success(l);
  }

  /** A row converts exactly when it reaches column 13 and one of its teams is the league's. */
  lemma ConvertedRowFaults(oldRow: Row)
    ensures ConvertedRow(oldRow).Success? <==> |oldRow| >= 14 && IsRowNcll(oldRow) == Success(true)
    ensures ConvertedRow(oldRow) == Failure(IndexError) <==> |oldRow| < 14
    ensures ConvertedRow(oldRow) == Failure(AssertionError) <==> IsRowNcll(oldRow) == Success(false)
  {
  }

  /** A converted row has a cell per header, the dates, times, title and location in place, and nothing else outside the team columns. */
  lemma ConvertedRowColumns(oldRow: Row)
    requires ConvertedRow(oldRow).Success?
    ensures var r := ConvertedRow(oldRow).value;
            |r| == |NewCsvHeaders| == 28
            && r[0] == r[2] == oldRow[3] && r[1] == oldRow[6] && r[3] == oldRow[7]
            && r[4] == r[10] == "Game" && r[6] == Location(oldRow[9], oldRow[10])
    ensures var r := ConvertedRow(oldRow).value;
            forall j :: 0 <= j < |r| && j !in {0, 1, 2, 3, 4, 6, 10, 12, 14, 15, 17} ==> r[j] == ""
  {
    var teams := TeamColumns(oldRow[12], oldRow[13]);
    assert ConvertedRow(oldRow).value == GameRow(oldRow[3], oldRow[6], oldRow[7], Location(oldRow[9], oldRow[10]), teams.0, teams.1, teams.2, teams.3);
    GameRowColumns(oldRow[3], oldRow[6], oldRow[7], Location(oldRow[9], oldRow[10]), teams.0, teams.1, teams.2, teams.3);
  }

  /**
   * Team 1 is always a league team, at home exactly when the home team is the
   * league's; team 2 is either a league id with no name or a name with no id,
   * and together the two team columns hold the original pair of teams.
   */
  lemma {:induction false} ConvertedRowTeams(oldRow: Row)
    requires ConvertedRow(oldRow).Success?
    ensures var r := ConvertedRow(oldRow).value;
            IsLeagueId(r[12]) && (r[14] == "1" <==> IsLeagueId(oldRow[12]))
    ensures var r := ConvertedRow(oldRow).value;
            (IsLeagueId(r[15]) && r[17] == "") || (r[15] == "" && !IsLeagueId(r[17]))
    ensures var r := ConvertedRow(oldRow).value;
            var opponent := r[15] + r[17];
            if r[14] == "1" then r[12] == oldRow[12] && opponent == oldRow[13] else r[12] == oldRow[13] && opponent == oldRow[12]
  {
    var teams := TeamColumns(oldRow[12], oldRow[13]);
    assert ConvertedRow(oldRow).value == GameRow(oldRow[3], oldRow[6], oldRow[7], Location(oldRow[9], oldRow[10]), teams.0, teams.1, teams.2, teams.3);
    GameRowColumns(oldRow[3], oldRow[6], oldRow[7], Location(oldRow[9], oldRow[10]), teams.0, teams.1, teams.2, teams.3);
    TeamColumnsSplit(oldRow[12], oldRow[13]);
  }

  // ----- the script's loop -----

  /** One pass of the script's loop: a league game is converted, any other row skipped. */
  function NcllStep(row: Row): Result<seq<Row>, Fault>
  {
    var ncll :- IsRowNcll(row);
    if ncll then (var converted :- ConvertedRow(row); Success([converted])) else Success([])
  }

  /** The rows the script writes under the header: the league games of the file, converted. */
  function ConvertedSchedule(file: seq<Row>): (r: Result<seq<Row>, Fault>)
    ensures file == [] ==> r == Failure(StopIteration)
    ensures file != [] ==> (r.Success? <==> forall i :: 1 <= i < |file| ==> NcllStep(file[i]).Success?)
    ensures file != [] && r.Failure? ==>
              exists i :: 1 <= i < |file| && NcllStep(file[i]) == Failure(r.error)
                          && forall j :: 1 <= j < i ==> NcllStep(file[j]).Success?
  {
    if file == [] then Failure(StopIteration)
    else
      var rows := file[1..];
      CollectSucceeds(rows, NcllStep);
      var out := Collect(rows, NcllStep);
      if out.Failure? then
        CollectFirstFault(rows, NcllStep);
        out
      else
        out
  }

  /** The script's loop over the data rows. */
  method ConvertSchedule(file: seq<Row>) returns (r: Result<seq<Row>, Fault>)
    ensures r == ConvertedSchedule(file)
  {
    if file == [] {
      return Failure(StopIteration);
    }
    var rows := file[1..];
    var newRows: seq<Row> := [];
    var i := 0;
    while i < |rows|
      invariant 0 <= i <= |rows|
      invariant Collect(rows[..i], NcllStep) == Success(newRows)
    {
      var ncll := IsRowNcll(rows[i]);
      if ncll.Failure? {
        CollectStops(rows, i, NcllStep, ncll.error);
        return Failure(ncll.error);
      }
      if ncll.value {
        var converted := ConvertRow(rows[i]);
        if converted.Failure? {
          CollectStops(rows, i, NcllStep, converted.error);
          return Failure(converted.error);
        }
        CollectNext(rows, i, NcllStep, newRows, [converted.value]);
        newRows := newRows + [converted.value];
      } else {
        CollectNext(rows, i, NcllStep, newRows, []);
        assert newRows + [] == newRows;
      }
      i := i + 1;
    }
    assert rows[..i] == rows;
    return Success(newRows);
  }

  /** The loop only converts league games, so the assertion in `convert_row` never stops the script. */
  lemma NcllStepNeverAsserts(row: Row)
    ensures NcllStep(row) != Failure(AssertionError)
    ensures NcllStep(row).Success? ==> forall r :: r in NcllStep(row).value ==> r == ConvertedRow(row).value && IsLeagueId(r[12])
  {
    ConvertedRowFaults(row);
    if NcllStep(row).Success? && NcllStep(row).value != [] {
      ConvertedRowTeams(row);
    }
  }

  /** A script run fails only on a missing header or a row too short for the team columns. */
  lemma ConvertedScheduleFaults(file: seq<Row>)
    ensures ConvertedSchedule(file).Failure? ==> ConvertedSchedule(file).error in {StopIteration, IndexError}
  {
    if file != [] {
      var rows := file[1..];
      if Collect(rows, NcllStep).Failure? {
        CollectFirstFault(rows, NcllStep);
        var i :| 0 <= i < |rows| && NcllStep(rows[i]) == Failure(Collect(rows, NcllStep).error);
        NcllStepNeverAsserts(rows[i]);
      }
    }
  }

  /** Every row a script run writes has a cell per header and a league team 1. */
  lemma ConvertedScheduleRows(file: seq<Row>)
    ensures ConvertedSchedule(file).Success? ==>
              forall r :: r in ConvertedSchedule(file).value ==> |r| == 28 && IsLeagueId(r[12])
  {
    if file != [] {
      var rows := file[1..];
      if Collect(rows, NcllStep).Success? {
        CollectMembers(rows, NcllStep);
        forall r | r in Collect(rows, NcllStep).value
          ensures |r| == 28 && IsLeagueId(r[12])
        {
          var i :| 0 <= i < |rows| && r in NcllStep(rows[i]).value;
          var row := rows[i];
          assert ConvertedRow(row).Success? && r == ConvertedRow(row).value && IsLeagueId(r[12]) by {
            NcllStepNeverAsserts(row);
          }
          ConvertedRowColumns(row);
        }
      }
    }
  }

}

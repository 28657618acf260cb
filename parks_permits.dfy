/**
 * process_permits_from_parks.py: the 60ft file's rows carry a short date
 * ("6-Apr"), the day's abbreviation, the permit number, the field's short
 * name and four empty columns to fill in by hand.
 */
module ParksPermits {
  import opened Wrappers
  import opened Faults
  import opened Strings
  import opened Decimal
  import opened Calendar
  import opened Permits

  const SixtyFtHeader: Row := ["Date", "Day", "Permit", "Field", "Start time", "End time", "Home", "Away"]

  /** `f"{dt.day}-{dt.strftime('%b')}"`. */
  function DayMonth(d: Date): (r: string)
    requires ValidDate(d)
    ensures |r| == |Show(d.day as nat)| + 4 && r[|Show(d.day as nat)|] == '-'
    ensures AllDigits(r[..|Show(d.day as nat)|]) && r[|Show(d.day as nat)| + 1..] == MonthAbbreviations[d.month - 1]
  {
    Show(d.day as nat) + "-" + MonthAbbreviations[d.month - 1]
  }

  /** `csv_date_format`: ValueError when the date does not read as "%b %d, %Y". */
  function CsvDateFormat(s: string): (r: Result<string, Fault>)
    ensures r.Success? <==> ParseAbbreviatedDate(s).Some?
    ensures r.Failure? ==> r.error == ValueError
    ensures r.Success? ==> |r.value| >= 5 && r.value[|r.value| - 4] == '-'
    ensures r.Success? ==> AllDigits(r.value[..|r.value| - 4]) && r.value[|r.value| - 3..] in MonthAbbreviations
  {
    var d :- Parsed(ParseAbbreviatedDate(s));
    Success(DayMonth(d))
  }

  /** The short date names the day and month: two permit dates share one exactly when they share both. */
  lemma DayMonthInjective(a: Date, b: Date)
    requires ValidDate(a) && ValidDate(b)
    ensures DayMonth(a) == DayMonth(b) <==> a.day == b.day && a.month == b.month
  {
    if DayMonth(a) == DayMonth(b) {
      var sa, sb := Show(a.day as nat), Show(b.day as nat);
      NumberThenDash(sa, MonthAbbreviations[a.month - 1], sb, MonthAbbreviations[b.month - 1]);
      AbbreviationsUnique();
      ShowInjective(a.day as nat, b.day as nat);
    }
  }

  /** A number, a dash and a name come apart at the dash. */
  lemma NumberThenDash(sa: string, ma: string, sb: string, mb: string)
    requires AllDigits(sa) && AllDigits(sb)
    requires sa + "-" + ma == sb + "-" + mb
    ensures sa == sb && ma == mb
  {
    assert sa + "-" + ma == sa + ("-" + ma);
    assert sb + "-" + mb == sb + ("-" + mb);
    JoinedAtFirst(sa, ma, sb, mb, '-');
  }


  /** `csv_date_format` reads a permit date and writes its day and month. */
  lemma CsvDateFormatRoundTrip(d: Date)
    requires ValidDate(d) && 1000 <= d.year
    ensures CsvDateFormat(AbbreviatedDateText(d)) == Success(DayMonth(d))
  {
    AbbreviatedDateRoundTrip(d);
  }

  /**
   * The docstrings' examples: "Apr 6, 2023" is the text of April 6, 2023, whose
   * short date is "6-Apr" and whose sortable date is "04/06".
   */
  lemma DocstringExamples(d: Date)
    requires d == Date(2023, 4, 6)
    ensures AbbreviatedDateText(d) == "Apr 6, 2023"
    ensures DayMonth(d) == "6-Apr"
    ensures MonthDay(d) == "04/06"
  {
    assert Show(2) == "2" && Show(20) == "20" && Show(202) == "202" && Show(2023) == "2023";
    assert Pad(4, 2) == "04" && Pad(6, 2) == "06";
  }

  /** The other docstring example does not hold: "%b" takes only the abbreviation, so "April ..." is a ValueError. */
  lemma SortableDateLongMonth()
    ensures SortableDate("April 6, 2023") == Failure(ValueError)
  {
    var rest := "il 6, 2023";
    assert "April 6, 2023" == MonthAbbreviations[3] + rest;
    LongMonthRejected(4, rest);
  }

  /** `csv_date_format(row[0])`. */
  function DateCell(row: Row): Result<string, Fault>
  {
    var date :- At(row, 0);
    CsvDateFormat(date)
  }

  /** The date cell is the short form of the permit's date. */
  lemma DateCellShape(row: Row)
    requires DateCell(row).Success?
    ensures |row| > 0 && ParseAbbreviatedDate(row[0]).Some?
    ensures DateCell(row).value == DayMonth(ParseAbbreviatedDate(row[0]).value)
  {
  }

  /** One row of the 60ft file, with the date cell given; the cells are evaluated left to right, each may raise. */
  function SixtyFtRowWith(row: Row, dateCell: Row -> Result<string, Fault>): Result<Row, Fault>
  {
    var date :- dateCell(row);
    var day :- DayCell(row);
    var permit :- At(row, 3);
    var field :- FieldCell(row);
    Success([date, day, permit, field, "", "", "", ""])
  }

  /** One row of the 60ft file. */
  function SixtyFtRow(row: Row): Result<Row, Fault>
  {
    SixtyFtRowWith(row, DateCell)
  }

  lemma SixtyFtRowWithShape(row: Row, dateCell: Row -> Result<string, Fault>)
    requires SixtyFtRowWith(row, dateCell).Success?
    ensures |SixtyFtRowWith(row, dateCell).value| == |SixtyFtHeader|
    ensures SixtyFtRowWith(row, dateCell).value[0] == dateCell(row).value
    ensures SixtyFtRowWith(row, dateCell).value[1] == Head(row[1], 3)
    ensures SixtyFtRowWith(row, dateCell).value[2] == row[3]
    ensures SixtyFtRowWith(row, dateCell).value[3] == Fields[row[4]]
    ensures forall i :: 4 <= i < 8 ==> SixtyFtRowWith(row, dateCell).value[i] == ""
  {
    DaysAbbreviate(row[1], row[1]);
  }

  /**
   * A 60ft row lines up with the header, carries the permit's short date, the
   * day's abbreviation, the permit number and the field's short name, and
   * leaves the last four columns empty.
   */
  lemma SixtyFtRowShape(row: Row)
    requires SixtyFtRow(row).Success?
    ensures |SixtyFtRow(row).value| == |SixtyFtHeader|
    ensures SixtyFtRow(row).value[0] == DateCell(row).value
    ensures SixtyFtRow(row).value[1] == Head(row[1], 3)
    ensures SixtyFtRow(row).value[2] == row[3]
    ensures SixtyFtRow(row).value[3] == Fields[row[4]]
    ensures forall i :: 4 <= i < 8 ==> SixtyFtRow(row).value[i] == ""
  {
    SixtyFtRowWithShape(row, DateCell);
  }
}

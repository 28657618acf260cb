/**
 * permits_to_fields.py: the 60ft file's rows carry the permit date up to
 * its comma ("Apr 6"), the day's abbreviation, the permit number and the
 * field's short name.
 */
module PermitsToFields {
  import opened Wrappers
  import opened Faults
  import opened Strings
  import opened Decimal
  import opened Calendar
  import opened Permits

  const SixtyFtHeader: Row := ["Date", "Day", "Permit", "Field"]

  predicate NoComma(s: string) {
    forall i :: 0 <= i < |s| ==> s[i] != ','
  }

  /**
   * `formatted_date`: the text before the first comma; never raises. It is the
   * longest comma-free prefix: the whole string, or what precedes its first comma.
   */
  function FormattedDate(s: string): (r: string)
    ensures NoComma(r)
    ensures r == s || StartsWith(s, r + ",")
  {
    FirstCommaPart(s);
    SplitOn(s, ",")[0]
  }

  /** What precedes the first comma holds none, and a comma follows it unless it is everything. */
  lemma FirstCommaPart(s: string)
    ensures NoComma(SplitOn(s, ",")[0])
    ensures SplitOn(s, ",")[0] == s || StartsWith(s, SplitOn(s, ",")[0] + ",")
  {
    SplitFirst(s, ",");
    var r := SplitOn(s, ",")[0];
    match Find(s, ",")
    case None =>
      forall i | 0 <= i < |s| ensures s[i] != ',' {
        assert !OccursAt(s, ",", i);
      }
    case Some(k) =>
      forall i | 0 <= i < |r| ensures r[i] != ',' {
        assert !OccursAt(s, ",", i);
      }
      assert s[..k + 1] == r + ",";
  }

  /** Text with a comma-free head before a comma formats to that head. */
  lemma FormattedDateOf(p: string, q: string)
    requires NoComma(p)
    ensures FormattedDate(p + "," + q) == p
  {
    var s := p + "," + q;
    SplitFirst(s, ",");
    assert OccursAt(s, ",", |p|);
    forall j | 0 <= j < |p| ensures !OccursAt(s, ",", j) {
      assert s[j] == p[j];
    }
  }

  /** A permit date "Apr 6, 2023" formats to "Apr 6": month and day, year dropped. */
  lemma FormattedDateOfText(d: Date)
    requires ValidDate(d)
    ensures FormattedDate(AbbreviatedDateText(d)) == MonthAbbreviations[d.month - 1] + " " + Show(d.day as nat)
  {
    var p := MonthAbbreviations[d.month - 1] + " " + Show(d.day as nat);
    assert AbbreviatedDateText(d) == p + "," + (" " + Show(d.year as nat));
    var month := MonthAbbreviations[d.month - 1];
    assert forall i :: 0 <= i < |month| ==> month[i] != ',';
    var digits := Show(d.day as nat);
    assert forall i :: 0 <= i < |digits| ==> IsDigit(digits[i]);
    FormattedDateOf(p, " " + Show(d.year as nat));
  }

  /** `formatted_date(row[0])`. */
  function DateCell(row: Row): Result<string, Fault>
  {
    var date :- At(row, 0);
    Success(FormattedDate(date))
  }

  /** One row of the 60ft file; the cells are evaluated left to right, each may raise. */
  function SixtyFtRow(row: Row): Result<Row, Fault>
  {
    var date :- DateCell(row);
    var day :- DayCell(row);
    var permit :- At(row, 3);
    var field :- FieldCell(row);
    Success([date, day, permit, field])
  }

  /**
   * A 60ft row lines up with the header and carries the comma-free head of the
   * permit date, the day's abbreviation, the permit number and the field's
   * short name.
   */
  lemma SixtyFtRowShape(row: Row)
    requires SixtyFtRow(row).Success?
    ensures |SixtyFtRow(row).value| == |SixtyFtHeader|
    ensures NoComma(SixtyFtRow(row).value[0])
    ensures SixtyFtRow(row).value[0] == row[0] || StartsWith(row[0], SixtyFtRow(row).value[0] + ",")
    ensures SixtyFtRow(row).value[1] == Head(row[1], 3)
    ensures SixtyFtRow(row).value[2] == row[3]
    ensures SixtyFtRow(row).value[3] == Fields[row[4]]
  {
    DaysAbbreviate(row[1], row[1]);
  }
}

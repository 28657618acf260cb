/**
 * What process_permits_from_parks.py and permits_to_fields.py share: the park
 * field table, the day table, the 90ft-field test, `get_rows` (header kept,
 * permit rows sorted by date and field) and the split of the permit rows
 * into a 60ft file and a 90ft file. The two scripts differ only in the shape
 * of a 60ft output row, which is a parameter here.
 */
module Permits {
  import opened Wrappers
  import opened Faults
  import opened Strings
  import opened Decimal
  import opened Calendar
  import opened Sorting
  import opened Batch

  /** One CSV row: Date, Day, (unused), Permit, Field, ... */
  type Row = seq<string>

  /** Park field names as the permits spell them, to the league's short names. */
  const Fields: map<string, string> := map[
    "Bitter Lake Playfield Ballfield 01" := "bitter lake 1",
    "Bitter Lake Playfield Ballfield 02" := "bitter lake 2",
    "B F Day Playfield Ballfield" := "bfday",
    "Eagle Staff Middle School Baseball Field" := "eagle staff 90",
    "Eagle Staff Middle School Softball Field" := "eagle staff 60",
    "Green Lake Playfield Ballfield 01" := "green lake 1",
    "Lower Woodland Playfield Ballfield 01" := "lw1",
    "Lower Woodland Playfield Ballfield 03" := "lw3",
    "Lower Woodland Playfield Ballfield 04" := "lw4",
    "Lower Woodland Playfield Ballfield 05" := "lw5",
    "Lower Woodland Playfield Ballfield 06" := "lw6",
    "Northacres Park Ballfield 02" := "northacres 2",
    "Loyal Heights Playfield Ballfield 01" := "loyal heights 1",
    "Ross Playfield Lower Ballfield" := "ross",
    "University Playfield Ballfield 01" := "university",
    "Whitman Middle School Baseball" := "whitman"
  ]

  const Days: map<string, string> := map[
    "Monday" := "Mon", "Tuesday" := "Tue", "Wednesday" := "Wed", "Thursday" := "Thu",
    "Friday" := "Fri", "Saturday" := "Sat", "Sunday" := "Sun"
  ]

  /** Short names of the fields with 90-foot base paths. */
  const NinetyFootFields: set<string> := {"eagle staff 90", "lw1", "whitman", "loyal heights 1"}

  /** `is_90ft_field`: KeyError for a field the table does not know. */
  function Is90ftField(fieldName: string): (r: Result<bool, Fault>)
    ensures r.Success? <==> fieldName in Fields
    ensures r.Failure? ==> r.error == KeyError(fieldName)
  {
    var short :- Lookup(Fields, fieldName);
    Success(short in NinetyFootFields)
  }

  /** Exactly four park fields are 90ft fields; every other known field is a 60ft field. */
  lemma NinetyFootFieldsAre(fieldName: string)
    ensures Is90ftField(fieldName) == Success(true) <==>
      fieldName in {"Eagle Staff Middle School Baseball Field", "Lower Woodland Playfield Ballfield 01",
                    "Loyal Heights Playfield Ballfield 01", "Whitman Middle School Baseball"}
    ensures Is90ftField(fieldName).Failure? <==> fieldName !in Fields
    ensures Is90ftField(fieldName).Failure? ==> Is90ftField(fieldName).error == KeyError(fieldName)
  {
  }

  /** Each day maps to its first three letters, and no two days share an abbreviation. */
  lemma DaysAbbreviate(a: string, b: string)
    requires a in Days && b in Days
    ensures Days[a] == Head(a, 3)
    ensures Days[a] == Days[b] ==> a == b
  {
  }

  /** `days[row[1]]`. */
  function DayCell(row: Row): Result<string, Fault>
  {
    var name :- At(row, 1);
    Lookup(Days, name)
  }

  /** `fields[row[4]]`. */
  function FieldCell(row: Row): Result<string, Fault>
  {
    var name :- At(row, 4);
    Lookup(Fields, name)
  }

  /** A row whose field is not a 90ft field has a short field name outside the 90ft set. */
  lemma SixtyFtField(row: Row)
    requires RowIs90ft(row) == Success(false)
    ensures FieldCell(row).Success? && FieldCell(row).value !in NinetyFootFields
  {
  }

  // ----- get_rows -----

  /** `strftime("%m/%d")` of a date. */
  function MonthDay(d: Date): (r: string)
    requires ValidDate(d)
    ensures |r| == 5 && r[2] == '/' && AllDigits(r[..2]) && AllDigits(r[3..])
  {
    Pad(d.month as nat, 2) + "/" + Pad(d.day as nat, 2)
  }

  /** `sortable_date_format`: "%b %d, %Y" read, "%m/%d" written; ValueError if it does not parse. */
  function SortableDate(s: string): (r: Result<string, Fault>)
    ensures r.Success? <==> ParseAbbreviatedDate(s).Some?
    ensures r.Failure? ==> r.error == ValueError
    ensures r.Success? ==> |r.value| == 5 && r.value[2] == '/' && AllDigits(r.value[..2]) && AllDigits(r.value[3..])
  {
    var d :- Parsed(ParseAbbreviatedDate(s));
    Success(MonthDay(d))
  }

  /** The sortable form of a permit date is its "%m/%d". */
  lemma SortableDateRoundTrip(d: Date)
    requires ValidDate(d) && 1000 <= d.year
    ensures SortableDate(AbbreviatedDateText(d)) == Success(MonthDay(d))
  {
    AbbreviatedDateRoundTrip(d);
  }

  /** A zero-padded two-digit numeral decides a string comparison before anything after it. */
  lemma TwoDigitsLess(a: nat, b: nat, x: string, y: string)
    requires a < 100 && b < 100
    ensures LexLess(Pad(a, 2) + x, Pad(b, 2) + y) <==> a < b || (a == b && LexLess(x, y))
  {
    PadTwo(a);
    PadTwo(b);
    var u := Pad(a, 2) + x;
    var v := Pad(b, 2) + y;
    assert u[0] == DigitChar(a / 10) && v[0] == DigitChar(b / 10);
    assert u[1..][0] == DigitChar(a % 10) && v[1..][0] == DigitChar(b % 10);
    assert u[1..][1..] == x && v[1..][1..] == y;
    assert a == 10 * (a / 10) + a % 10 && b == 10 * (b / 10) + b % 10;
  }

  /** Two-digit fields followed by text are equal exactly when both the numbers and the texts are. */
  lemma TwoDigitsEqual(a: nat, b: nat, x: string, y: string)
    requires a < 100 && b < 100
    ensures Pad(a, 2) + x == Pad(b, 2) + y <==> a == b && x == y
  {
    PadTwo(a);
    PadTwo(b);
    var u := Pad(a, 2) + x;
    var v := Pad(b, 2) + y;
    if u == v {
      assert u[0] == v[0] && u[1] == v[1];
      assert u[2..] == x && v[2..] == y;
      assert a == 10 * (a / 10) + a % 10 && b == 10 * (b / 10) + b % 10;
    }
  }

  /**
   * Sorting on the "%m/%d" text orders permits by month, then day: the year is
   * dropped, so permits from different years interleave.
   */
  lemma MonthDayOrder(a: Date, b: Date)
    requires ValidDate(a) && ValidDate(b)
    ensures LexLess(MonthDay(a), MonthDay(b)) <==> a.month < b.month || (a.month == b.month && a.day < b.day)
    ensures MonthDay(a) == MonthDay(b) <==> a.month == b.month && a.day == b.day
  {
    var da, db := Pad(a.day as nat, 2), Pad(b.day as nat, 2);
    var ta, tb := "/" + da, "/" + db;
    assert MonthDay(a) == Pad(a.month as nat, 2) + ta;
    assert MonthDay(b) == Pad(b.month as nat, 2) + tb;
    assert da == da + [] && db == db + [];
    assert LexLess(ta, tb) <==> a.day < b.day by {
      LexLessCommonPrefix("/", da, db);
      TwoDigitsLess(a.day as nat, b.day as nat, [], []);
    }
    assert ta == tb <==> a.day == b.day by {
      assert ta[1..] == da && tb[1..] == db;
      TwoDigitsEqual(a.day as nat, b.day as nat, [], []);
    }
    TwoDigitsLess(a.month as nat, b.month as nat, ta, tb);
    TwoDigitsEqual(a.month as nat, b.month as nat, ta, tb);
  }


  /** The sort key of a permit row: (sortable date of row[0], row[4]), evaluated in that order. */
  function SortKey(row: Row): Result<Key, Fault>
  {
    var date :- At(row, 0);
    var sortable :- SortableDate(date);
    var field :- At(row, 4);
    Success(Key(sortable, field))
  }

  /** Every element carries the key `keyOf` computes for its row. */
  predicate KeyedBy(s: seq<Keyed<Row>>, keyOf: Row -> Result<Key, Fault>) {
    forall x :: x in s ==> keyOf(x.item) == Success(x.key)
  }

  /** The keys of all rows, computed in order (as `sorted` does before it sorts). */
  function KeyAll(rows: seq<Row>, keyOf: Row -> Result<Key, Fault>): (r: Result<seq<Keyed<Row>>, Fault>)
    ensures r.Success? <==> forall i :: 0 <= i < |rows| ==> keyOf(rows[i]).Success?
    ensures r.Failure? ==> exists i :: 0 <= i < |rows| && keyOf(rows[i]) == Failure(r.error)
                                      && forall j :: 0 <= j < i ==> keyOf(rows[j]).Success?
    ensures r.Success? ==> Items(r.value) == rows && KeyedBy(r.value, keyOf)
    decreases |rows|
  {
    if rows == [] then Success([])
    else
      var k :- keyOf(rows[0]);
      var rest :- KeyAll(rows[1..], keyOf);
      var r := [Keyed(k, rows[0])] + rest;
      assert r[1..] == rest;
      assert rows == [rows[0]] + rows[1..];
      Success(r)
  }

  /** `get_rows`: the header row, then the permit rows sorted by their keys. */
  function GetRows(rows: seq<Row>): (r: Result<seq<Row>, Fault>)
    ensures r.Success? <==> forall i :: 0 <= i < |Tail(rows)| ==> SortKey(Tail(rows)[i]).Success?
    ensures r.Failure? ==> exists i :: 0 <= i < |Tail(rows)| && SortKey(Tail(rows)[i]) == Failure(r.error)
                                      && forall j :: 0 <= j < i ==> SortKey(Tail(rows)[j]).Success?
  {
    var keyed :- KeyAll(Tail(rows), SortKey);
    Success((if rows == [] then [] else [rows[0]]) + Items(SortByKey(keyed)))
  }

  /** Rows ordered by their keys; every key computes. */
  predicate SortedRows(rows: seq<Row>, keyOf: Row -> Result<Key, Fault>) {
    (forall i :: 0 <= i < |rows| ==> keyOf(rows[i]).Success?) &&
    forall i, j :: 0 <= i < j < |rows| ==> !KeyLess(keyOf(rows[j]).value, keyOf(rows[i]).value)
  }

  /** The rows whose key is `k`, in order. */
  function RowsWithKey(rows: seq<Row>, keyOf: Row -> Result<Key, Fault>, k: Key): seq<Row>
  {
    if rows == [] then [] else (if keyOf(rows[0]) == Success(k) then [rows[0]] else []) + RowsWithKey(rows[1..], keyOf, k)
  }

  lemma {:induction false} RowsWithKeyItems(s: seq<Keyed<Row>>, keyOf: Row -> Result<Key, Fault>, k: Key)
    requires KeyedBy(s, keyOf)
    ensures RowsWithKey(Items(s), keyOf, k) == Items(WithKey(s, k))
    decreases |s|
  {
    if s != [] {
      assert s[0] in s;
      assert Items(s)[1..] == Items(s[1..]);
      RowsWithKeyItems(s[1..], keyOf, k);
      assert Items(s)[0] == s[0].item;
      if s[0].key == k {
        assert WithKey(s, k) == [s[0]] + WithKey(s[1..], k);
        ItemsAppend([s[0]], WithKey(s[1..], k));
      } else {
        assert WithKey(s, k) == WithKey(s[1..], k);
      }
    }
  }

  /** Sorting keeps every row with its own key. */
  lemma SortedKeyedBy(keyed: seq<Keyed<Row>>, keyOf: Row -> Result<Key, Fault>)
    requires KeyedBy(keyed, keyOf)
    ensures KeyedBy(SortByKey(keyed), keyOf)
  {
    var sorted := SortByKey(keyed);
    forall x | x in sorted ensures keyOf(x.item) == Success(x.key) {
      assert x in multiset(sorted);
    }
  }

  /** Rows in key order, each with its own key, are sorted by that key. */
  lemma KeyOrderedRows(sorted: seq<Keyed<Row>>, keyOf: Row -> Result<Key, Fault>)
    requires KeyedBy(sorted, keyOf) && SortedByKey(sorted)
    ensures SortedRows(Items(sorted), keyOf)
  {
    forall i | 0 <= i < |sorted| ensures keyOf(Items(sorted)[i]) == Success(sorted[i].key) {
      ItemsAt(sorted, i);
      assert sorted[i] in sorted;
    }
  }

  /** Sorting keyed rows permutes them into key order and keeps rows of equal key in order. */
  lemma SortRows(keyed: seq<Keyed<Row>>, keyOf: Row -> Result<Key, Fault>)
    requires KeyedBy(keyed, keyOf)
    ensures multiset(Items(SortByKey(keyed))) == multiset(Items(keyed))
    ensures SortedRows(Items(SortByKey(keyed)), keyOf)
    ensures forall k :: RowsWithKey(Items(SortByKey(keyed)), keyOf, k) == RowsWithKey(Items(keyed), keyOf, k)
  {
    var sorted := SortByKey(keyed);
    ItemsSortByKey(keyed);
    SortedKeyedBy(keyed, keyOf);
    KeyOrderedRows(sorted, keyOf);
    forall k ensures RowsWithKey(Items(sorted), keyOf, k) == RowsWithKey(Items(keyed), keyOf, k) {
      RowsWithKeyItems(sorted, keyOf, k);
      RowsWithKeyItems(keyed, keyOf, k);
      SortByKeyStable(keyed, k);
    }
  }

  /**
   * `get_rows` keeps the header first, and the permit rows that follow are the
   * same rows, ordered by (month/day, field), with rows of equal key in file order.
   */
  lemma GetRowsSorts(rows: seq<Row>)
    requires GetRows(rows).Success?
    ensures |GetRows(rows).value| == |rows|
    ensures rows != [] ==> GetRows(rows).value[0] == rows[0]
    ensures multiset(Tail(GetRows(rows).value)) == multiset(Tail(rows))
    ensures SortedRows(Tail(GetRows(rows).value), SortKey)
    ensures forall k :: RowsWithKey(Tail(GetRows(rows).value), SortKey, k) == RowsWithKey(Tail(rows), SortKey, k)
  {
    var keyed := KeyAll(Tail(rows), SortKey).value;
    assert Tail(GetRows(rows).value) == Items(SortByKey(keyed));
    SortRows(keyed, SortKey);
  }

  // ----- create_60ft_fields_csvfile / create_90ft_fields_csvfile -----

  /** `is_90ft_field(row[4])`. */
  function RowIs90ft(row: Row): Result<bool, Fault>
  {
    var fieldName :- At(row, 4);
    Is90ftField(fieldName)
  }

  /** A permit row whose field is a 90ft field. */
  predicate OnNinetyFtField(row: Row) {
    RowIs90ft(row) == Success(true)
  }

  /** A permit row whose field is a known field that is not a 90ft field. */
  predicate OnSixtyFtField(row: Row) {
    RowIs90ft(row) == Success(false)
  }

  /** One pass of the 60ft loop: a row on a 60ft field becomes one output row of the script's shape. */
  function SixtyFtStep(shape: Row -> Result<Row, Fault>): Row -> Result<seq<Row>, Fault>
  {
    row =>
      var is90 :- RowIs90ft(row);
      if is90 then Success([])
      else
        var out :- shape(row);
        Success([out])
  }

  /** One pass of the 90ft loop: a row on a 90ft field is copied unchanged. */
  function NinetyFtStep(row: Row): Result<seq<Row>, Fault>
  {
    var is90 :- RowIs90ft(row);
    Success(if is90 then [row] else [])
  }

  /** The rows the 60ft file ends up holding: its fixed header, then the loop's output. */
  function SixtyFtFile(csvRows: seq<Row>, header: Row, shape: Row -> Result<Row, Fault>): (r: Result<seq<Row>, Fault>)
    ensures r.Success? <==> forall i :: 0 <= i < |Tail(csvRows)| ==> SixtyFtStep(shape)(Tail(csvRows)[i]).Success?
    ensures r.Success? ==> |r.value| >= 1 && r.value[0] == header
  {
    CollectSucceeds(Tail(csvRows), SixtyFtStep(shape));
    var body :- Collect(Tail(csvRows), SixtyFtStep(shape));
    Success([header] + body)
  }

  /** The rows the 90ft file ends up holding: the input's header, then the loop's output. */
  function NinetyFtFile(csvRows: seq<Row>): (r: Result<seq<Row>, Fault>)
    ensures csvRows == [] ==> r == Failure(IndexError)
    ensures csvRows != [] ==> (r.Success? <==> forall i :: 0 <= i < |Tail(csvRows)| ==> RowIs90ft(Tail(csvRows)[i]).Success?)
    ensures r.Success? ==> |r.value| >= 1 && r.value[0] == csvRows[0]
  {
    CollectSucceeds(Tail(csvRows), NinetyFtStep);
    var header :- At(csvRows, 0);
    var body :- Collect(Tail(csvRows), NinetyFtStep);
    Success([header] + body)
  }

  method CreateSixtyFtFile(csvRows: seq<Row>, header: Row, shape: Row -> Result<Row, Fault>) returns (r: Result<seq<Row>, Fault>)
    ensures r == SixtyFtFile(csvRows, header, shape)
  {
    var data := Tail(csvRows);
    var body: seq<Row> := [];
    var i := 0;
    while i < |data|
      invariant 0 <= i <= |data|
      invariant Collect(data[..i], SixtyFtStep(shape)) == Success(body)
    {
      var row := data[i];
      if |row| <= 4 {
        CollectStops(data, i, SixtyFtStep(shape), IndexError);
        return Failure(IndexError);
      }
      var is90 := Is90ftField(row[4]);
      if is90.Failure? {
        CollectStops(data, i, SixtyFtStep(shape), is90.error);
        return Failure(is90.error);
      }
      if !is90.value {
        var out := shape(row);
        if out.Failure? {
          CollectStops(data, i, SixtyFtStep(shape), out.error);
          return Failure(out.error);
        }
        CollectNext(data, i, SixtyFtStep(shape), body, [out.value]);
        body := body + [out.value];
      } else {
        CollectNext(data, i, SixtyFtStep(shape), body, []);
        assert body + [] == body;
      }
      i := i + 1;
    }
    assert data[..i] == data;
    return Success([header] + body);
  }

  method CreateNinetyFtFile(csvRows: seq<Row>) returns (r: Result<seq<Row>, Fault>)
    ensures r == NinetyFtFile(csvRows)
  {
    if csvRows == [] {
      return Failure(IndexError);
    }
    var data := Tail(csvRows);
    var body: seq<Row> := [];
    var i := 0;
    while i < |data|
      invariant 0 <= i <= |data|
      invariant Collect(data[..i], NinetyFtStep) == Success(body)
    {
      var row := data[i];
      if |row| <= 4 {
        CollectStops(data, i, NinetyFtStep, IndexError);
        return Failure(IndexError);
      }
      var is90 := Is90ftField(row[4]);
      if is90.Failure? {
        CollectStops(data, i, NinetyFtStep, is90.error);
        return Failure(is90.error);
      }
      if is90.value {
        CollectNext(data, i, NinetyFtStep, body, [row]);
        body := body + [row];
      } else {
        CollectNext(data, i, NinetyFtStep, body, []);
        assert body + [] == body;
      }
      i := i + 1;
    }
    assert data[..i] == data;
    return Success([csvRows[0]] + body);
  }

  /** Every permit row lands in exactly one of the two files. */
  lemma FilesPartition(csvRows: seq<Row>, header: Row, shape: Row -> Result<Row, Fault>)
    requires SixtyFtFile(csvRows, header, shape).Success? && NinetyFtFile(csvRows).Success?
    ensures |SixtyFtFile(csvRows, header, shape).value| - 1 + |NinetyFtFile(csvRows).value| - 1 == |csvRows| - 1
  {
    var data := Tail(csvRows);
    CollectSplit(data, SixtyFtStep(shape), NinetyFtStep);
  }

  /**
   * The 90ft file is the input's header followed by exactly the permit rows on
   * 90ft fields, unchanged.
   */
  lemma NinetyFtFileRows(csvRows: seq<Row>)
    requires NinetyFtFile(csvRows).Success?
    ensures NinetyFtFile(csvRows).value[0] == csvRows[0]
    ensures NinetyFtFile(csvRows).value[1..] == Filter(Tail(csvRows), OnNinetyFtField)
    ensures forall row :: row in NinetyFtFile(csvRows).value[1..] <==> row in Tail(csvRows) && RowIs90ft(row) == Success(true)
  {
    var data := Tail(csvRows);
    var out := NinetyFtFile(csvRows).value;
    assert out[1..] == Collect(data, NinetyFtStep).value;
    CollectKept(data, NinetyFtStep, OnNinetyFtField, (row: Row) => Success(row));
    FilterMembers(data, OnNinetyFtField);
  }

  /**
   * The 60ft file is its header followed by the shaped permit rows on 60ft fields:
   * one for each such row, and nothing else.
   */
  lemma SixtyFtFileRows(csvRows: seq<Row>, header: Row, shape: Row -> Result<Row, Fault>)
    requires SixtyFtFile(csvRows, header, shape).Success?
    ensures SixtyFtFile(csvRows, header, shape).value[0] == header
    ensures var file, kept := SixtyFtFile(csvRows, header, shape).value, Filter(Tail(csvRows), OnSixtyFtField);
            |file| == |kept| + 1 && forall k :: 0 <= k < |kept| ==> shape(kept[k]) == Success(file[k + 1])
    ensures forall out :: out in SixtyFtFile(csvRows, header, shape).value[1..] ==>
              exists row :: row in Tail(csvRows) && RowIs90ft(row) == Success(false) && shape(row) == Success(out)
    ensures forall row :: row in Tail(csvRows) && RowIs90ft(row) == Success(false) ==>
              shape(row).Success? && shape(row).value in SixtyFtFile(csvRows, header, shape).value[1..]
  {
    var data := Tail(csvRows);
    var file := SixtyFtFile(csvRows, header, shape).value;
    assert file[1..] == Collect(data, SixtyFtStep(shape)).value;
    CollectKept(data, SixtyFtStep(shape), OnSixtyFtField, shape);
    FilterMembers(data, OnSixtyFtField);
    ReadMembers(Filter(data, OnSixtyFtField), file[1..], shape);
  }

  /**
   * When the 60ft file is written without error, so is the 90ft file, unless the
   * input is empty: the 60ft file then holds its header alone, while reading the
   * 90ft header raises IndexError.
   */
  lemma NinetyFtFollowsSixtyFt(csvRows: seq<Row>, header: Row, shape: Row -> Result<Row, Fault>)
    requires SixtyFtFile(csvRows, header, shape).Success?
    ensures csvRows != [] ==> NinetyFtFile(csvRows).Success?
    ensures csvRows == [] ==> SixtyFtFile(csvRows, header, shape) == Success([header]) && NinetyFtFile(csvRows) == Failure(IndexError)
  {
    var data := Tail(csvRows);
    CollectSucceeds(data, SixtyFtStep(shape));
    CollectSucceeds(data, NinetyFtStep);
    assert [header] + [] == [header];
    assert forall i :: 0 <= i < |data| ==> SixtyFtStep(shape)(data[i]).Success? ==> NinetyFtStep(data[i]).Success?;
  }
}

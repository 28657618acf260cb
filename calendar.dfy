/**
 * Dates and clock times as Python's `datetime` gives them to the scripts,
 * and the `strptime` formats they read: each directive is a piece of a
 * small parser over the input string.
 */
module Calendar {
  import opened Wrappers
  import opened Strings
  import opened Decimal

  datatype Date = Date(year: int, month: int, day: int)

  /** A time of day: what `strptime` yields for a pure time format. */
  datatype Clock = Clock(hour: int, minute: int, second: int)

  predicate IsLeapYear(y: int) {
    y % 4 == 0 && (y % 100 != 0 || y % 400 == 0)
  }

  function DaysInMonth(year: int, month: int): (n: int)
    requires 1 <= month <= 12
    ensures 28 <= n <= 31
  {
    if month == 2 then (if IsLeapYear(year) then 29 else 28)
    else if month == 4 || month == 6 || month == 9 || month == 11 then 30
    else 31
  }

  /** The dates `datetime.date` accepts: years 1 to 9999 and a real day of the month. */
  predicate ValidDate(d: Date) {
    1 <= d.year <= 9999 && 1 <= d.month <= 12 && 1 <= d.day <= DaysInMonth(d.year, d.month)
  }

  predicate ValidClock(c: Clock) {
    0 <= c.hour < 24 && 0 <= c.minute < 60 && 0 <= c.second < 60
  }

  /** Chronological order of dates. */
  predicate Before(a: Date, b: Date) {
    a.year < b.year || (a.year == b.year && (a.month < b.month || (a.month == b.month && a.day < b.day)))
  }

  const LastDate := Date(9999, 12, 31)

  /** `d + timedelta(days=1)`, which overflows after 9999-12-31. */
  function NextDay(d: Date): (r: Option<Date>)
    requires ValidDate(d)
    ensures r.None? <==> d == LastDate
    ensures r.Some? ==> ValidDate(r.value) && Before(d, r.value)
  {
    if d.day < DaysInMonth(d.year, d.month) then Some(Date(d.year, d.month, d.day + 1))
    else if d.month < 12 then Some(Date(d.year, d.month + 1, 1))
    else if d.year < 9999 then Some(Date(d.year + 1, 1, 1))
    else None
  }

  /** No valid date lies strictly between a date and the next one. */
  lemma NextDayIsSuccessor(d: Date, e: Date)
    requires ValidDate(d) && ValidDate(e) && d != LastDate
    requires Before(d, e)
    ensures !Before(e, NextDay(d).value)
  {
  }

  // ----- month names, as the C locale spells them -----

  const MonthAbbreviations: seq<string> :=
    ["Jan", "Feb", "Mar", "Apr", "May", "Jun", "Jul", "Aug", "Sep", "Oct", "Nov", "Dec"]

  const MonthNames: seq<string> :=
    ["January", "February", "March", "April", "May", "June", "July",
     "August", "September", "October", "November", "December"]

  /** Month number (1-based) of the first name in `names[i..]` equal to `word`, ignoring case. */
  function MonthNumber(names: seq<string>, word: string, i: nat): (r: Option<int>)
    requires i <= |names|
    ensures r.Some? ==> i < r.value <= |names| && Lower(names[r.value - 1]) == Lower(word)
    decreases |names| - i
  {
    if i == |names| then None
    else if Lower(names[i]) == Lower(word) then Some(i + 1)
    else MonthNumber(names, word, i + 1)
  }

  /** The lookup finds the first matching name, and fails only when no name matches. */
  lemma {:induction false} MonthNumberFirst(names: seq<string>, word: string, i: nat)
    requires i <= |names|
    ensures MonthNumber(names, word, i).Some? ==>
              forall j :: i <= j < MonthNumber(names, word, i).value - 1 ==> Lower(names[j]) != Lower(word)
    ensures MonthNumber(names, word, i).None? ==> forall j :: i <= j < |names| ==> Lower(names[j]) != Lower(word)
    decreases |names| - i
  {
    if i < |names| && Lower(names[i]) != Lower(word) {
      MonthNumberFirst(names, word, i + 1);
    }
  }

  // ----- strptime directives: each consumes a prefix and returns the rest -----

  /**
   * A numeric directive (`%d`, `%m`, `%y`, `%Y`, `%H`, `%I`, `%M`, `%S`): the whole
   * leading run of digits, `minWidth` to `maxWidth` of them, with a value in `lo..hi`.
   * In every format used here a numeric directive is followed by a non-digit or by the
   * end of the input, so the regular expression must consume the whole run.
   */
  function Number(s: string, minWidth: nat, maxWidth: nat, lo: int, hi: int): (r: Option<(int, string)>)
    ensures r.Some? ==> lo <= r.value.0 <= hi && |r.value.1| < |s|
    ensures r.Some? ==> r.value.1 == [] || !IsDigit(r.value.1[0])
  {
    var w := LeadingDigits(s);
    if minWidth <= w <= maxWidth && 1 <= w && lo <= Value(s[..w]) <= hi then Some((Value(s[..w]), s[w..]))
    else None
  }

  /** A literal character of the format. */
  function Literal(s: string, lit: string): (r: Option<string>)
    ensures r.Some? ==> s == lit + r.value
  {
    if StartsWith(s, lit) then Some(s[|lit|..]) else None
  }

  /** `%b`: a three-letter month abbreviation in any case. */
  function AbbreviatedMonth(s: string): (r: Option<(int, string)>)
    ensures r.Some? ==> 1 <= r.value.0 <= 12 && |s| >= 3 && r.value.1 == s[3..]
  {
    if |s| < 3 then None
    else
      var m :- MonthNumber(MonthAbbreviations, s[..3], 0);
      Some((m, s[3..]))
  }

  /** `%B`: a full month name in any case, here always followed by a space. */
  function FullMonth(s: string): (r: Option<(int, string)>)
    ensures r.Some? ==> 1 <= r.value.0 <= 12
  {
    var word := match Find(s, " ") case None => s case Some(i) => s[..i];
    var m :- MonthNumber(MonthNames, word, 0);
    Some((m, s[|word|..]))
  }

  /** `%p`: AM or PM in any case; true for PM. */
  function Meridiem(s: string): (r: Option<(bool, string)>)
  {
    if |s| < 2 then None
    else if Lower(s[..2]) == "am" then Some((false, s[2..]))
    else if Lower(s[..2]) == "pm" then Some((true, s[2..]))
    else None
  }

  /** The date `datetime` builds from the fields, if the day exists in that month. */
  function MakeDate(year: int, month: int, day: int): (r: Option<Date>)
    ensures r.Some? <==> ValidDate(Date(year, month, day))
    ensures r.Some? ==> r.value == Date(year, month, day)
  {
    if ValidDate(Date(year, month, day)) then Some(Date(year, month, day)) else None
  }

  /** `%y`: years 69-99 are the 1900s, 00-68 the 2000s. */
  function CenturyOf(yy: int): int {
    if yy >= 69 then 1900 + yy else 2000 + yy
  }

  /** `strptime(s, "%d-%b-%y")`, e.g. "05-Apr-23". */
  function ParseDayMonYy(s: string): (r: Option<Date>)
    ensures r.Some? ==> ValidDate(r.value)
  {
    var p1 :- Number(s, 1, 2, 1, 31);
    var r1 :- Literal(p1.1, "-");
    var p2 :- AbbreviatedMonth(r1);
    var r2 :- Literal(p2.1, "-");
    var p3 :- Number(r2, 2, 2, 0, 99);
    if p3.1 != [] then None else MakeDate(CenturyOf(p3.0), p2.0, p1.0)
  }

  /** `strptime(s, "%m/%d/%Y")`, e.g. "4/19/2021". */
  function ParseMonthDayYear(s: string): (r: Option<Date>)
    ensures r.Some? ==> ValidDate(r.value)
  {
    var p1 :- Number(s, 1, 2, 1, 12);
    var r1 :- Literal(p1.1, "/");
    var p2 :- Number(r1, 1, 2, 1, 31);
    var r2 :- Literal(p2.1, "/");
    var p3 :- Number(r2, 4, 4, 0, 9999);
    if p3.1 != [] then None else MakeDate(p3.0, p1.0, p2.0)
  }

  /** `strptime(s, "%Y-%m-%d")`, e.g. "2021-04-19". */
  function ParseIsoDate(s: string): (r: Option<Date>)
    ensures r.Some? ==> ValidDate(r.value)
  {
    var p1 :- Number(s, 4, 4, 0, 9999);
    var r1 :- Literal(p1.1, "-");
    var p2 :- Number(r1, 1, 2, 1, 12);
    var r2 :- Literal(p2.1, "-");
    var p3 :- Number(r2, 1, 2, 1, 31);
    if p3.1 != [] then None else MakeDate(p1.0, p2.0, p3.0)
  }

  /** `strptime(s, "%b %d, %Y")`, e.g. "Apr 6, 2023". */
  function ParseAbbreviatedDate(s: string): (r: Option<Date>)
    ensures r.Some? ==> ValidDate(r.value)
  {
    var p1 :- AbbreviatedMonth(s);
    var r1 :- Literal(p1.1, " ");
    var p2 :- Number(r1, 1, 2, 1, 31);
    var r2 :- Literal(p2.1, ", ");
    var p3 :- Number(r2, 4, 4, 0, 9999);
    if p3.1 != [] then None else MakeDate(p3.0, p1.0, p2.0)
  }

  /** `strptime(s, "%B %d, %Y")`, e.g. "May 31, 2023". */
  function ParseLongDate(s: string): (r: Option<Date>)
    ensures r.Some? ==> ValidDate(r.value)
  {
    var p1 :- FullMonth(s);
    var r1 :- Literal(p1.1, " ");
    var p2 :- Number(r1, 1, 2, 1, 31);
    var r2 :- Literal(p2.1, ", ");
    var p3 :- Number(r2, 4, 4, 0, 9999);
    if p3.1 != [] then None else MakeDate(p3.0, p1.0, p2.0)
  }

  /** `strptime(s, "%I:%M %p")`, e.g. "05:00 PM"; 12 AM is hour 0 and 12 PM hour 12. */
  function ParseClock12(s: string): (r: Option<Clock>)
    ensures r.Some? ==> ValidClock(r.value) && r.value.second == 0
  {
    var p1 :- Number(s, 1, 2, 1, 12);
    var r1 :- Literal(p1.1, ":");
    var p2 :- Number(r1, 1, 2, 0, 59);
    var r2 :- Literal(p2.1, " ");
    var p3 :- Meridiem(r2);
    if p3.1 != [] then None
    else Some(Clock(p1.0 % 12 + (if p3.0 then 12 else 0), p2.0, 0))
  }

  /** `strptime(s, "%H:%M:%S")`, e.g. "17:30:00". */
  function ParseClock24(s: string): (r: Option<Clock>)
    ensures r.Some? ==> ValidClock(r.value)
  {
    var p1 :- Number(s, 1, 2, 0, 23);
    var r1 :- Literal(p1.1, ":");
    var p2 :- Number(r1, 1, 2, 0, 59);
    var r2 :- Literal(p2.1, ":");
    var p3 :- Number(r2, 1, 2, 0, 59);
    if p3.1 != [] then None else Some(Clock(p1.0, p2.0, p3.0))
  }

  /** `strptime(s, "%H:%M")`: the reading that the `h:mm` renderings are checked against. */
  function ParseHourMinute(s: string): (r: Option<Clock>)
    ensures r.Some? ==> ValidClock(r.value) && r.value.second == 0
  {
    var p1 :- Number(s, 1, 2, 0, 23);
    var r1 :- Literal(p1.1, ":");
    var p2 :- Number(r1, 1, 2, 0, 59);
    if p2.1 != [] then None else Some(Clock(p1.0, p2.0, 0))
  }

  // ----- lemmas for reading back what the scripts write -----

  /** A numeral followed by a non-digit is read whole by a numeric directive. */
  lemma NumberOfNumeral(t: string, rest: string, minWidth: nat, maxWidth: nat, lo: int, hi: int)
    requires AllDigits(t) && 1 <= |t|
    requires rest == [] || !IsDigit(rest[0])
    requires minWidth <= |t| <= maxWidth && lo <= Value(t) <= hi
    ensures Number(t + rest, minWidth, maxWidth, lo, hi) == Some((Value(t), rest))
  {
    LeadingDigitsOf(t, rest);
    assert (t + rest)[..|t|] == t;
    assert (t + rest)[|t|..] == rest;
  }

  lemma LiteralOf(lit: string, rest: string)
    ensures Literal(lit + rest, lit) == Some(rest)
  {
    assert (lit + rest)[..|lit|] == lit;
    assert (lit + rest)[|lit|..] == rest;
  }

  /** `%b` as `strftime` writes it, lower-cased: what a month abbreviation is compared as. */
  const LowerAbbreviations: seq<string> :=
    ["jan", "feb", "mar", "apr", "may", "jun", "jul", "aug", "sep", "oct", "nov", "dec"]

  lemma LowerMonthAbbreviations()
    ensures forall j :: 0 <= j < 12 ==> Lower(MonthAbbreviations[j]) == LowerAbbreviations[j]
  {
    forall j | 0 <= j < 12 ensures Lower(MonthAbbreviations[j]) == LowerAbbreviations[j] {
      var a := MonthAbbreviations[j];
      assert |a| == 3 && |LowerAbbreviations[j]| == 3;
      assert Lower(a)[0] == LowerAbbreviations[j][0];
    }
  }

  /** The month lookup stops at the first name that matches. */
  lemma {:induction false} MonthNumberAt(names: seq<string>, word: string, i: nat, k: nat)
    requires i <= k < |names| && Lower(names[k]) == Lower(word)
    requires forall j :: i <= j < k ==> Lower(names[j]) != Lower(word)
    ensures MonthNumber(names, word, i) == Some(k + 1)
    decreases k - i
  {
    if i < k {
      MonthNumberAt(names, word, i + 1, k);
    }
  }

  /** `%b` takes exactly three letters, so a longer month name is not followed by the space the format expects. */
  lemma LongMonthRejected(m: int, rest: string)
    requires 1 <= m <= 12 && rest != [] && rest[0] != ' '
    ensures ParseAbbreviatedDate(MonthAbbreviations[m - 1] + rest) == None
  {
    AbbreviatedMonthOf(m, rest);
    assert Literal(rest, " ") == None by {
      assert rest[..1][0] != " "[0];
    }
    NoSpaceAfterMonth(MonthAbbreviations[m - 1] + rest, m, rest);
  }

  /** "%b %d, %Y" fails when the month is not followed by a space. */
  lemma NoSpaceAfterMonth(s: string, m: int, afterMonth: string)
    requires AbbreviatedMonth(s) == Some((m, afterMonth)) && Literal(afterMonth, " ") == None
    ensures ParseAbbreviatedDate(s) == None
  {
  }

  /** `%b` reads back every abbreviation `strftime("%b")` writes. */
  lemma AbbreviatedMonthOf(m: int, rest: string)
    requires 1 <= m <= 12
    ensures AbbreviatedMonth(MonthAbbreviations[m - 1] + rest) == Some((m, rest))
  {
    var s := MonthAbbreviations[m - 1] + rest;
    var word := s[..3];
    assert word == MonthAbbreviations[m - 1] && s[3..] == rest;
    assert MonthNumber(MonthAbbreviations, word, 0) == Some(m) by {
      LowerMonthAbbreviations();
      DistinctAbbreviations();
      forall j | 0 <= j < m - 1 ensures Lower(MonthAbbreviations[j]) != Lower(word) {
        assert Lower(word) == LowerAbbreviations[m - 1];
      }
      MonthNumberAt(MonthAbbreviations, word, 0, m - 1);
    }
  }

  /** No two months share an abbreviation, even ignoring case. */
  lemma DistinctAbbreviations()
    ensures forall i, j :: 0 <= i < j < 12 ==> LowerAbbreviations[i] != LowerAbbreviations[j]
  {
    forall i, j | 0 <= i < j < 12 ensures LowerAbbreviations[i] != LowerAbbreviations[j] {
      var a, b := LowerAbbreviations[i], LowerAbbreviations[j];
      assert a[0] != b[0] || a[1] != b[1] || a[2] != b[2];
    }
  }

  /** Each month has its own three-letter abbreviation. */
  lemma AbbreviationsUnique()
    ensures forall i :: 0 <= i < 12 ==> |MonthAbbreviations[i]| == 3
    ensures forall i, j :: 0 <= i < 12 && 0 <= j < 12 && MonthAbbreviations[i] == MonthAbbreviations[j] ==> i == j
  {
    LowerMonthAbbreviations();
    DistinctAbbreviations();
    forall i, j | 0 <= i < 12 && 0 <= j < 12 && MonthAbbreviations[i] == MonthAbbreviations[j]
      ensures i == j
    {
      assert LowerAbbreviations[i] == LowerAbbreviations[j];
    }
  }

  /** "Apr 6, 2023" style text of a date with a four-digit year. */
  function AbbreviatedDateText(d: Date): string
    requires ValidDate(d)
  {
    MonthAbbreviations[d.month - 1] + " " + Show(d.day as nat) + ", " + Show(d.year as nat)
  }

  /** The steps of "%b %d, %Y": the month, a space, the day, a comma and space, the year. */
  lemma AbbreviatedDateSteps(s: string, d: Date, afterMonth: string, afterSpace: string, afterDay: string, afterComma: string)
    requires ValidDate(d)
    requires AbbreviatedMonth(s) == Some((d.month, afterMonth))
    requires Literal(afterMonth, " ") == Some(afterSpace)
    requires Number(afterSpace, 1, 2, 1, 31) == Some((d.day, afterDay))
    requires Literal(afterDay, ", ") == Some(afterComma)
    requires Number(afterComma, 4, 4, 0, 9999) == Some((d.year, []))
    ensures ParseAbbreviatedDate(s) == Some(d)
  {
  }

  /** The steps of "%m/%d/%Y": the month, a slash, the day, a slash, the year. */
  lemma MonthDayYearSteps(s: string, d: Date, afterMonth: string, afterSlash: string, afterDay: string, afterSlash2: string)
    requires ValidDate(d)
    requires Number(s, 1, 2, 1, 12) == Some((d.month, afterMonth))
    requires Literal(afterMonth, "/") == Some(afterSlash)
    requires Number(afterSlash, 1, 2, 1, 31) == Some((d.day, afterDay))
    requires Literal(afterDay, "/") == Some(afterSlash2)
    requires Number(afterSlash2, 4, 4, 0, 9999) == Some((d.year, []))
    ensures ParseMonthDayYear(s) == Some(d)
  {
  }

  /** A day or month written by `str` is read back whole by `%d` or `%m`. */
  lemma ShortField(n: nat, rest: string, lo: int, hi: int)
    requires 1 <= n < 100 && lo <= n <= hi && (rest == [] || !IsDigit(rest[0]))
    ensures Number(Show(n) + rest, 1, 2, lo, hi) == Some((n as int, rest))
  {
    ShowWidth(n);
    ValueOfShow(n);
    NumberOfNumeral(Show(n), rest, 1, 2, lo, hi);
  }

  /** A four-digit year written by `str` is read back by `%Y`. */
  lemma YearField(year: nat)
    requires 1000 <= year <= 9999
    ensures Number(Show(year), 4, 4, 0, 9999) == Some((year as int, []))
  {
    ShowWidth(year);
    ValueOfShow(year);
    assert Show(year) == Show(year) + [];
    NumberOfNumeral(Show(year), [], 4, 4, 0, 9999);
  }

  /** Reading "%b %d, %Y" inverts writing it, for the years `%Y` reads as four digits. */
  lemma AbbreviatedDateRoundTrip(d: Date)
    requires ValidDate(d) && 1000 <= d.year
    ensures ParseAbbreviatedDate(AbbreviatedDateText(d)) == Some(d)
  {
    var day, year := Show(d.day as nat), Show(d.year as nat);
    var tail2 := ", " + year;
    var tail1 := " " + (day + tail2);
    Regroup(MonthAbbreviations[d.month - 1], " ", day, ", ", year);
    AbbreviatedMonthOf(d.month, tail1);
    LiteralOf(" ", day + tail2);
    ShortField(d.day as nat, tail2, 1, 31);
    LiteralOf(", ", year);
    YearField(d.year as nat);
    AbbreviatedDateSteps(AbbreviatedDateText(d), d, tail1, day + tail2, tail2, year);
  }

  /** A written date split after its first field. */
  lemma Regroup(a: string, b: string, c: string, e: string, f: string)
    ensures a + b + c + e + f == a + (b + (c + (e + f)))
  {
  }

  /** A two-digit `%m`, `%d`, `%H`, `%I`, `%M` or `%S` field reads back whole. */
  lemma PaddedField(n: nat, rest: string, lo: int, hi: int)
    requires n < 100 && lo <= n <= hi && (rest == [] || !IsDigit(rest[0]))
    ensures Number(Pad(n, 2) + rest, 1, 2, lo, hi) == Some((n as int, rest))
  {
    PadTwo(n);
    ValueOfPad(n, 2);
    NumberOfNumeral(Pad(n, 2), rest, 1, 2, lo, hi);
  }

  /** A four-digit year followed by a separator is read back by `%Y`. */
  lemma YearFieldThen(year: nat, rest: string)
    requires 1000 <= year <= 9999 && (rest == [] || !IsDigit(rest[0]))
    ensures Number(Show(year) + rest, 4, 4, 0, 9999) == Some((year as int, rest))
  {
    ShowWidth(year);
    ValueOfShow(year);
    NumberOfNumeral(Show(year), rest, 4, 4, 0, 9999);
  }

  /** A two-digit `%y` year is read back whole. */
  lemma ShortYearField(yy: nat)
    requires yy < 100
    ensures Number(Pad(yy, 2), 2, 2, 0, 99) == Some((yy as int, []))
  {
    PadTwo(yy);
    ValueOfPad(yy, 2);
    assert Pad(yy, 2) == Pad(yy, 2) + [];
    NumberOfNumeral(Pad(yy, 2), [], 2, 2, 0, 99);
  }

  // ----- %B %d, %Y -----

  /** `strftime("%B %d, %Y")` with the day unpadded, as in "May 31, 2023". */
  function LongDateText(d: Date): string
    requires ValidDate(d)
  {
    MonthNames[d.month - 1] + " " + Show(d.day as nat) + ", " + Show(d.year as nat)
  }

  /** Every month name begins with its abbreviation and holds no space. */
  lemma MonthNamesShape()
    ensures forall i :: 0 <= i < 12 ==> 3 <= |MonthNames[i]| && MonthNames[i][..3] == MonthAbbreviations[i]
    ensures forall i, k :: 0 <= i < 12 && 0 <= k < |MonthNames[i]| ==> MonthNames[i][k] != ' '
  {
  }

  /** No two month names agree, even ignoring case. */
  lemma DistinctMonthNames()
    ensures forall i, j :: 0 <= i < j < 12 ==> Lower(MonthNames[i]) != Lower(MonthNames[j])
  {
    MonthNamesShape();
    LowerMonthAbbreviations();
    DistinctAbbreviations();
  }


  /** `%B` reads back every month name `strftime("%B")` writes, up to the following space. */
  lemma FullMonthOf(m: int, rest: string)
    requires 1 <= m <= 12 && rest != [] && rest[0] == ' '
    ensures FullMonth(MonthNames[m - 1] + rest) == Some((m, rest))
  {
    var name := MonthNames[m - 1];
    var s := name + rest;
    MonthNamesShape();
    assert s[|name|..|name| + 1] == " ";
    assert OccursAt(s, " ", |name|);
    var found := Find(s, " ");
    assert found == Some(|name|) by {
      assert found.Some?;
      var f := found.value;
      assert s[f..f + 1][0] == s[f];
    }
    assert s[..|name|] == name && s[|name|..] == rest;
    DistinctMonthNames();
    MonthNumberAt(MonthNames, name, 0, m - 1);
  }

  /** The steps of "%B %d, %Y": the month, a space, the day, a comma and space, the year. */
  lemma LongDateSteps(s: string, d: Date, afterMonth: string, afterSpace: string, afterDay: string, afterComma: string)
    requires ValidDate(d)
    requires FullMonth(s) == Some((d.month, afterMonth))
    requires Literal(afterMonth, " ") == Some(afterSpace)
    requires Number(afterSpace, 1, 2, 1, 31) == Some((d.day, afterDay))
    requires Literal(afterDay, ", ") == Some(afterComma)
    requires Number(afterComma, 4, 4, 0, 9999) == Some((d.year, []))
    ensures ParseLongDate(s) == Some(d)
  {
  }

  /** The "%B %d, %Y" text has no white space at either end. */
  lemma LongDateTextEnds(d: Date)
    requires ValidDate(d)
    ensures |LongDateText(d)| > 0 && !IsSpace(LongDateText(d)[0]) && !IsSpace(LongDateText(d)[|LongDateText(d)| - 1])
  {
    MonthNamesShape();
    var name, year := MonthNames[d.month - 1], Show(d.year as nat);
    Regroup(name, " ", Show(d.day as nat), ", ", year);
    assert LongDateText(d)[0] == name[..3][0] == MonthAbbreviations[d.month - 1][0];
    assert LongDateText(d)[|LongDateText(d)| - 1] == year[|year| - 1];
  }

  /** After a month read by `%B`, " d, yyyy" completes the date. */
  lemma LongDateAfterMonth(s: string, d: Date, afterMonth: string)
    requires ValidDate(d) && 1000 <= d.year
    requires afterMonth == " " + (Show(d.day as nat) + (", " + Show(d.year as nat)))
    requires FullMonth(s) == Some((d.month, afterMonth))
    ensures ParseLongDate(s) == Some(d)
  {
    var day, year := Show(d.day as nat), Show(d.year as nat);
    var tail2 := ", " + year;
    LiteralOf(" ", day + tail2);
    ShortField(d.day as nat, tail2, 1, 31);
    LiteralOf(", ", year);
    YearField(d.year as nat);
    LongDateSteps(s, d, afterMonth, day + tail2, tail2, year);
  }

  /** Reading "%B %d, %Y" inverts writing it, for the years `%Y` reads as four digits. */
  lemma LongDateRoundTrip(d: Date)
    requires ValidDate(d) && 1000 <= d.year
    ensures ParseLongDate(LongDateText(d)) == Some(d)
  {
    var tail := " " + (Show(d.day as nat) + (", " + Show(d.year as nat)));
    Regroup(MonthNames[d.month - 1], " ", Show(d.day as nat), ", ", Show(d.year as nat));
    FullMonthOf(d.month, tail);
    LongDateAfterMonth(LongDateText(d), d, tail);
  }

  // ----- %I:%M %p -----

  /** `strftime("%I:%M %p")`: the hour on the 12-hour clock, both fields zero-padded. */
  function Clock12Text(c: Clock): string
    requires ValidClock(c)
  {
    var hour12 := if c.hour % 12 == 0 then 12 else c.hour % 12;
    Pad(hour12 as nat, 2) + ":" + Pad(c.minute as nat, 2) + " " + (if c.hour < 12 then "AM" else "PM")
  }

  /** `%p` reads back what `strftime("%p")` writes. */
  lemma MeridiemOf(pm: bool)
    ensures Meridiem(if pm then "PM" else "AM") == Some((pm, []))
  {
    var s := if pm then "PM" else "AM";
    assert s[..2] == s && s[2..] == [];
    assert Lower(s)[0] == (if pm then 'p' else 'a') && Lower(s)[1] == 'm';
  }

  /** The steps of "%I:%M %p": the hour, a colon, the minute, a space, AM or PM. */
  lemma Clock12Steps(s: string, c: Clock, hour12: int, pm: bool, afterHour: string, afterColon: string, afterMinute: string, afterSpace: string)
    requires c.second == 0 && hour12 % 12 + (if pm then 12 else 0) == c.hour
    requires Number(s, 1, 2, 1, 12) == Some((hour12, afterHour))
    requires Literal(afterHour, ":") == Some(afterColon)
    requires Number(afterColon, 1, 2, 0, 59) == Some((c.minute, afterMinute))
    requires Literal(afterMinute, " ") == Some(afterSpace)
    requires Meridiem(afterSpace) == Some((pm, []))
    ensures ParseClock12(s) == Some(c)
  {
  }

  /** After the hour, ":mm AM" or ":mm PM" completes the time. */
  lemma Clock12AfterHour(s: string, c: Clock, hour12: int, afterHour: string)
    requires ValidClock(c) && c.second == 0
    requires hour12 % 12 + (if 12 <= c.hour then 12 else 0) == c.hour
    requires Number(s, 1, 2, 1, 12) == Some((hour12, afterHour))
    requires afterHour == ":" + (Pad(c.minute as nat, 2) + (" " + (if 12 <= c.hour then "PM" else "AM")))
    ensures ParseClock12(s) == Some(c)
  {
    var pm := 12 <= c.hour;
    var m, p := Pad(c.minute as nat, 2), if pm then "PM" else "AM";
    LiteralOf(":", m + (" " + p));
    PaddedField(c.minute as nat, " " + p, 0, 59);
    LiteralOf(" ", p);
    MeridiemOf(pm);
    Clock12Steps(s, c, hour12, pm, afterHour, m + (" " + p), " " + p, p);
  }

  /** The 12-hour clock and AM or PM give back the 24-hour hour. */
  lemma Hour12Back(hour: int)
    requires 0 <= hour < 24
    ensures var hour12 := if hour % 12 == 0 then 12 else hour % 12;
            1 <= hour12 <= 12 && hour12 % 12 + (if 12 <= hour then 12 else 0) == hour
  {
  }

  /** Reading "%I:%M %p" inverts writing it: 12 AM is midnight and 12 PM noon. */
  lemma Clock12RoundTrip(c: Clock)
    requires ValidClock(c) && c.second == 0
    ensures ParseClock12(Clock12Text(c)) == Some(c)
  {
    var hour12 := if c.hour % 12 == 0 then 12 else c.hour % 12;
    var pm := 12 <= c.hour;
    var h, m, p := Pad(hour12 as nat, 2), Pad(c.minute as nat, 2), if pm then "PM" else "AM";
    Hour12Back(c.hour);
    Regroup(h, ":", m, " ", p);
    PaddedField(hour12 as nat, ":" + (m + (" " + p)), 1, 12);
    Clock12AfterHour(Clock12Text(c), c, hour12, ":" + (m + (" " + p)));
  }

  /** The "%I:%M %p" text holds no dash and has no white space at either end. */
  lemma Clock12TextShape(c: Clock)
    requires ValidClock(c)
    ensures forall j :: 0 <= j < |Clock12Text(c)| ==> Clock12Text(c)[j] != '-'
    ensures |Clock12Text(c)| == 8 && !IsSpace(Clock12Text(c)[0]) && !IsSpace(Clock12Text(c)[7])
  {
    var hour12 := if c.hour % 12 == 0 then 12 else c.hour % 12;
    var h, m, p := Pad(hour12 as nat, 2), Pad(c.minute as nat, 2), if c.hour < 12 then "AM" else "PM";
    PadTwo(hour12 as nat);
    PadTwo(c.minute as nat);
    var text := Clock12Text(c);
    assert text == h + ":" + m + " " + p;
    forall j | 0 <= j < 8
      ensures text[j] != '-'
    {
      if j < 2 {
        assert text[j] == h[j];
      } else if 3 <= j < 5 {
        assert text[j] == m[j - 3];
      }
    }
    assert text[0] == h[0];
  }

  // ----- %H:%M:%S -----

  /** `strftime("%H:%M:%S")`: every field zero-padded. */
  function Clock24Text(c: Clock): string
    requires ValidClock(c)
  {
    Pad(c.hour as nat, 2) + ":" + Pad(c.minute as nat, 2) + ":" + Pad(c.second as nat, 2)
  }

  /** The steps of "%H:%M:%S": the hour, a colon, the minute, a colon, the second. */
  lemma Clock24Steps(s: string, c: Clock, afterHour: string, afterColon: string, afterMinute: string, afterColon2: string)
    requires Number(s, 1, 2, 0, 23) == Some((c.hour, afterHour))
    requires Literal(afterHour, ":") == Some(afterColon)
    requires Number(afterColon, 1, 2, 0, 59) == Some((c.minute, afterMinute))
    requires Literal(afterMinute, ":") == Some(afterColon2)
    requires Number(afterColon2, 1, 2, 0, 59) == Some((c.second, []))
    ensures ParseClock24(s) == Some(c)
  {
  }

  /** Reading "%H:%M:%S" inverts writing it. */
  lemma Clock24RoundTrip(c: Clock)
    requires ValidClock(c)
    ensures ParseClock24(Clock24Text(c)) == Some(c)
  {
    var h, m, sec := Pad(c.hour as nat, 2), Pad(c.minute as nat, 2), Pad(c.second as nat, 2);
    Regroup(h, ":", m, ":", sec);
    PaddedField(c.hour as nat, ":" + (m + (":" + sec)), 0, 23);
    LiteralOf(":", m + (":" + sec));
    PaddedField(c.minute as nat, ":" + sec, 0, 59);
    LiteralOf(":", sec);
    assert sec == sec + [];
    PaddedField(c.second as nat, [], 0, 59);
    Clock24Steps(Clock24Text(c), c, ":" + (m + (":" + sec)), m + (":" + sec), ":" + sec, sec);
  }

  // ----- %Y-%m-%d -----

  /** `strftime("%Y-%m-%d")` for a four-digit year. */
  function IsoDateText(d: Date): string
    requires ValidDate(d)
  {
    Show(d.year as nat) + "-" + Pad(d.month as nat, 2) + "-" + Pad(d.day as nat, 2)
  }

  /** The steps of "%Y-%m-%d": the year, a dash, the month, a dash, the day. */
  lemma IsoDateSteps(s: string, d: Date, afterYear: string, afterDash: string, afterMonth: string, afterDash2: string)
    requires ValidDate(d)
    requires Number(s, 4, 4, 0, 9999) == Some((d.year, afterYear))
    requires Literal(afterYear, "-") == Some(afterDash)
    requires Number(afterDash, 1, 2, 1, 12) == Some((d.month, afterMonth))
    requires Literal(afterMonth, "-") == Some(afterDash2)
    requires Number(afterDash2, 1, 2, 1, 31) == Some((d.day, []))
    ensures ParseIsoDate(s) == Some(d)
  {
  }

  /** Reading "%Y-%m-%d" inverts writing it, for the years `%Y` reads as four digits. */
  lemma IsoDateRoundTrip(d: Date)
    requires ValidDate(d) && 1000 <= d.year
    ensures ParseIsoDate(IsoDateText(d)) == Some(d)
  {
    var y, m, dd := Show(d.year as nat), Pad(d.month as nat, 2), Pad(d.day as nat, 2);
    Regroup(y, "-", m, "-", dd);
    YearFieldThen(d.year as nat, "-" + (m + ("-" + dd)));
    LiteralOf("-", m + ("-" + dd));
    PaddedField(d.month as nat, "-" + dd, 1, 12);
    LiteralOf("-", dd);
    assert dd == dd + [];
    PaddedField(d.day as nat, [], 1, 31);
    IsoDateSteps(IsoDateText(d), d, "-" + (m + ("-" + dd)), m + ("-" + dd), "-" + dd, dd);
  }

  // ----- %d-%b-%y -----

  /** `strftime("%d-%b-%y")`, e.g. "05-Apr-23": the year's last two digits. */
  function DayMonYyText(d: Date): string
    requires ValidDate(d)
  {
    Pad(d.day as nat, 2) + "-" + MonthAbbreviations[d.month - 1] + "-" + Pad((d.year % 100) as nat, 2)
  }

  /** The steps of "%d-%b-%y": the day, a dash, the month, a dash, the two-digit year. */
  lemma DayMonYySteps(s: string, d: Date, yy: int, afterDay: string, afterDash: string, afterMonth: string, afterDash2: string)
    requires ValidDate(d) && CenturyOf(yy) == d.year
    requires Number(s, 1, 2, 1, 31) == Some((d.day, afterDay))
    requires Literal(afterDay, "-") == Some(afterDash)
    requires AbbreviatedMonth(afterDash) == Some((d.month, afterMonth))
    requires Literal(afterMonth, "-") == Some(afterDash2)
    requires Number(afterDash2, 2, 2, 0, 99) == Some((yy, []))
    ensures ParseDayMonYy(s) == Some(d)
  {
  }

  /** `%y` gives back the years 1969 to 2068 from their last two digits. */
  lemma CenturyOfShortYear(year: int)
    requires 1969 <= year <= 2068
    ensures 0 <= year % 100 < 100 && CenturyOf(year % 100) == year
  {
    if year < 2000 {
      assert year % 100 == year - 1900;
    } else {
      assert year % 100 == year - 2000;
    }
  }

  /** After the month, "-yy" completes the date. */
  lemma DayMonYyAfterMonth(s: string, d: Date, afterDay: string, afterDash: string, afterMonth: string)
    requires ValidDate(d) && 1969 <= d.year <= 2068
    requires Number(s, 1, 2, 1, 31) == Some((d.day, afterDay))
    requires Literal(afterDay, "-") == Some(afterDash)
    requires AbbreviatedMonth(afterDash) == Some((d.month, afterMonth))
    requires afterMonth == "-" + Pad((d.year % 100) as nat, 2)
    ensures ParseDayMonYy(s) == Some(d)
  {
    var yy := Pad((d.year % 100) as nat, 2);
    LiteralOf("-", yy);
    ShortYearField((d.year % 100) as nat);
    CenturyOfShortYear(d.year);
    DayMonYySteps(s, d, d.year % 100, afterDay, afterDash, afterMonth, yy);
  }

  /** After the day, "-Mon-yy" completes the date. */
  lemma DayMonYyAfterDay(s: string, d: Date, afterDay: string)
    requires ValidDate(d) && 1969 <= d.year <= 2068
    requires afterDay == "-" + (MonthAbbreviations[d.month - 1] + ("-" + Pad((d.year % 100) as nat, 2)))
    requires Number(s, 1, 2, 1, 31) == Some((d.day, afterDay))
    ensures ParseDayMonYy(s) == Some(d)
  {
    var mon, yy := MonthAbbreviations[d.month - 1], Pad((d.year % 100) as nat, 2);
    LiteralOf("-", mon + ("-" + yy));
    AbbreviatedMonthOf(d.month, "-" + yy);
    DayMonYyAfterMonth(s, d, afterDay, mon + ("-" + yy), "-" + yy);
  }

  /** Reading "%d-%b-%y" inverts writing it for 1969 to 2068, the century `%y` assumes. */
  lemma DayMonYyRoundTrip(d: Date)
    requires ValidDate(d) && 1969 <= d.year <= 2068
    ensures ParseDayMonYy(DayMonYyText(d)) == Some(d)
  {
    var dd, mon, yy := Pad(d.day as nat, 2), MonthAbbreviations[d.month - 1], Pad((d.year % 100) as nat, 2);
    Regroup(dd, "-", mon, "-", yy);
    PaddedField(d.day as nat, "-" + (mon + ("-" + yy)), 1, 31);
    DayMonYyAfterDay(DayMonYyText(d), d, "-" + (mon + ("-" + yy)));
  }
}


# NCLL schedule tools, modelled in Dafny

This project models the scheduling scripts of a little-league volunteer
repository. The scripts turn park permits and game schedules into
spreadsheets and calendar entries:

- `scheduler.py` normalizes field names and indexes the park permits by
  (date, field). It also reads the softball and baseball game files into
  events.
- `converter.py` reads the league's spreadsheets into events. It renames
  teams and fields and writes one CSV row per event.
- `process_permits_from_parks.py` and `permits_to_fields.py` sort a
  permit export by date and field. They split it into a 60-foot-field file
  and a 90-foot-field file.
- `paul_schedule_to_gamechanger.py` converts a schedule export into the
  28-column import format of a game-tracking app. Only rows with a league
  team (an `NC-` id) are kept.
- `scripts/sync_calendar.py` turns the permit rows into calendar events. It
  then computes which events to create, update and delete in a shared
  calendar.

The model uses one module per script: `Scheduler`, `Converter`, `Permits`
(shared by the two permit scripts), `ParksPermits`, `PermitsToFields`,
`GameChanger` and `SyncCalendar`. Library modules model the Python
built-ins the scripts rely on:

- `Strings`: `lower`, `strip`, `split`, `in`.
- `Decimal`: `str` of an integer and zero padding.
- `Calendar`: the `strptime` and `strftime` formats used, and the next
  day.
- `Sorting`: the stable `sorted` with a tuple key.
- `Batch`: a loop that appends each row's output and stops at the first
  exception.
- `Faults`: `IndexError`, `KeyError`, `ValueError`, `NameError`,
  `AssertionError` and `StopIteration`, as values of a `Result`.

A Python exception that ends a script is a `Failure`. Each loop over rows
is a `method` with loop invariants, proved equal to a specification
function. The properties are proved about that function.

## Model

| member | source | states |
|---|---|---|
| Faults.At | scheduler.py:38-40 | indexing a row succeeds exactly when the index is in range, gives that cell, and otherwise raises IndexError |
| Faults.Lookup | process_permits_from_parks.py:64 | a dictionary lookup succeeds exactly when the key is present, and otherwise raises KeyError naming the key |
| Faults.Parsed | scheduler.py:38 | a failed `strptime` raises ValueError; a successful one yields the parsed value |
| Strings.Lower | scheduler.py:11 | `lower()` keeps the length and lowers each ASCII capital, leaving other characters alone |
| Strings.ContainsIff | scheduler.py:11 | `sub in s` holds exactly when `sub` occurs at some position of `s` |
| Strings.MissingChar | scheduler.py:11 | a string lacking one of `sub`'s characters does not contain `sub` |
| Strings.Head | scheduler.py:23 | `s[0:n]` has length min(n, len(s)) and is a prefix of `s` |
| Strings.HeadIsStartsWith | paul_schedule_to_gamechanger.py:42 | `s[0:len(p)] == p` exactly when `s` starts with `p` |
| Strings.Strip | converter.py:51 | `strip()` leaves no whitespace at either end and removes only whitespace around the kept middle |
| Strings.StripParts | converter.py:51 | what `strip()` removes is whitespace before and after the kept middle |
| Strings.StripUnchanged | converter.py:51 | a string with no surrounding whitespace is unchanged by `strip()` |
| Strings.StripTrailingSpace | converter.py:105 | whitespace added at the end does not change the stripped result |
| Strings.Find | scripts/sync_calendar.py:66 | the separator search returns the first occurrence, or none exists |
| Strings.SplitOn | converter.py:53 | `split(sep)` always yields at least one part |
| Strings.JoinSplit | converter.py:53 | joining the parts of `split(sep)` with `sep` gives back the original string |
| Strings.SplitFirst | permits_to_fields.py:45 | the first part of `split(sep)` is everything before the first separator, or the whole string |
| Strings.SplitCount | converter.py:53-54 | `split(c)` yields one part more than the occurrences of `c` |
| Strings.SplitAtSingle | converter.py:53-56 | with exactly one `c`, the two parts rebuild the string around it |
| Strings.SplitOnAround | converter.py:53-56 | splitting `a + c + b` where neither side holds `c` gives `[a, b]` |
| Strings.SplitOnSeparator | scripts/sync_calendar.py:66 | splitting `a + sep + b` gives `[a, b]` when a character of `sep` that occurs once in it is absent from both sides |
| Strings.JoinedAtFirst | scripts/sync_calendar.py:99 | text joined at a character absent from the first part splits back into the same two parts |
| Strings.CountAppend | converter.py:53 | occurrences of a character add up over concatenation |
| Strings.LexLessTransitive | process_permits_from_parks.py:71-73 | Python's string order, used for the sort keys, is transitive |
| Strings.LexLessTotal | process_permits_from_parks.py:71-73 | any two different strings are ordered one way or the other |
| Strings.LexLessCommonPrefix | process_permits_from_parks.py:72 | a shared prefix does not change the order of two strings |
| Decimal.Show | converter.py:41 | `str(n)` is all digits, one digit exactly below 10, with no leading zero otherwise |
| Decimal.ValueOfShow | converter.py:41 | reading `str(n)` back gives `n` |
| Decimal.ShowInjective | converter.py:48 | different numbers print differently |
| Decimal.Pad | converter.py:41 | `{n:02}` is all digits, of width the larger of the pad width and `str(n)`'s |
| Decimal.ValueOfPad | converter.py:41 | reading a padded number back gives the number |
| Calendar.NextDay | scripts/sync_calendar.py:84 | adding one day gives a valid later date, except past the last representable date |
| Calendar.NextDayIsSuccessor | scripts/sync_calendar.py:84 | no date lies strictly between a date and the next day |
| Calendar.MakeDate | scheduler.py:38 | `strptime` accepts a day/month/year exactly when the calendar date exists |
| Calendar.ParseDayMonYy | scheduler.py:38 | `%d-%b-%y` yields only valid dates |
| Calendar.ParseMonthDayYear | scheduler.py:107 | `%m/%d/%Y` yields only valid dates |
| Calendar.ParseIsoDate | scheduler.py:134 | `%Y-%m-%d` yields only valid dates |
| Calendar.ParseAbbreviatedDate | process_permits_from_parks.py:50 | `%b %d, %Y` yields only valid dates |
| Calendar.ParseLongDate | scripts/sync_calendar.py:58 | `%B %d, %Y` yields only valid dates |
| Calendar.MonthNumber | process_permits_from_parks.py:50 | a month name found by `%b`/`%B`, ignoring case, gives a month number whose name matches |
| Calendar.MonthNumberFirst | process_permits_from_parks.py:50 | the lookup picks the first matching name, and fails only when no name matches |
| Calendar.DistinctAbbreviations | process_permits_from_parks.py:50 | no two month abbreviations agree, even ignoring case |
| Calendar.AbbreviationsUnique | process_permits_from_parks.py:50 | each month has its own three-letter abbreviation |
| Calendar.AbbreviatedMonthOf | process_permits_from_parks.py:50 | `%b` reads back each abbreviation `%b` writes, leaving the rest of the text |
| Calendar.LongMonthRejected | process_permits_from_parks.py:50 | a full month name longer than three letters is rejected by `%b %d, %Y` |
| Calendar.ShortField | process_permits_from_parks.py:50 | a day written without padding is read back whole by `%d` |
| Calendar.YearField | process_permits_from_parks.py:50 | a four-digit year is read back by `%Y` |
| Calendar.ParseClock12 | scheduler.py:112-113 | `%I:%M %p` yields only valid times with zero seconds |
| Calendar.ParseClock24 | converter.py:128-129 | `%H:%M:%S` yields only valid times |
| Calendar.AbbreviatedDateRoundTrip | process_permits_from_parks.py:50 | a date written as "Apr 6, 2023" reads back as the same date under `%b %d, %Y` |
| Calendar.DistinctMonthNames | scripts/sync_calendar.py:58 | no two full month names agree, even ignoring case |
| Calendar.FullMonthOf | scripts/sync_calendar.py:58 | `%B` reads back each full month name `%B` writes, up to the following space |
| Calendar.LongDateRoundTrip | scripts/sync_calendar.py:58 | a date written "May 31, 2023" (`%B %d, %Y`) reads back as the same date, for four-digit years |
| Calendar.Clock12RoundTrip | scheduler.py:112-113 | a time on the minute written "03:05 PM" (`%I:%M %p`) reads back as the same time, midnight as 12 AM and noon as 12 PM |
| Calendar.Clock12TextShape | scripts/sync_calendar.py:72-80 | a `%I:%M %p` time is eight characters with no dash and no white space at either end |
| Calendar.LongDateTextEnds | scripts/sync_calendar.py:58 | a `%B %d, %Y` date has no white space at either end, so `strip()` keeps it |
| Calendar.Clock24RoundTrip | converter.py:128-129 | a time written "15:05:09" (`%H:%M:%S`) reads back as the same time |
| Calendar.IsoDateRoundTrip | scheduler.py:134 | a date written "2023-04-06" (`%Y-%m-%d`) reads back as the same date, for four-digit years |
| Calendar.DayMonYyRoundTrip | scheduler.py:38 | a date written "06-Apr-23" (`%d-%b-%y`) reads back as the same date for years 1969 to 2068, the window `%y` maps two digits into |
| Sorting.SortByKey | process_permits_from_parks.py:71-73 | `sorted` returns a permutation of its input, ordered by key |
| Sorting.SortByKeyStable | process_permits_from_parks.py:71-73 | items with equal keys keep their input order |
| Sorting.Insert | process_permits_from_parks.py:71-73 | insertion adds exactly the one item to the list |
| Sorting.InsertSorted | process_permits_from_parks.py:71-73 | inserting into a list sorted by key keeps it sorted |
| Sorting.InsertWithKey | process_permits_from_parks.py:71-73 | an item inserted by key lands after every item of the same key |
| Sorting.InsertStable | process_permits_from_parks.py:71-73 | inserting the last item after sorting the others keeps each key's items in input order |
| Sorting.ItemsSortByKey | process_permits_from_parks.py:71-73 | the sorted rows are a permutation of the input rows |
| Batch.CollectSucceeds | scheduler.py:37-41 | a row loop finishes exactly when no row raises |
| Batch.CollectFirstFault | scheduler.py:37-41 | a failed row loop raises the exception of one of its rows |
| Batch.CollectMembers | scheduler.py:37-41 | a finished loop's output holds exactly what the rows contributed |
| Batch.CollectEach | scheduler.py:145-153 | when every row contributes one item, output item i is row i's |
| Batch.Filter | scripts/sync_calendar.py:48-50 | a filtered list is no longer than its input and holds only kept input rows |
| Batch.FilterMembers | scripts/sync_calendar.py:48-50 | a row is in the filtered list exactly when it is an input row that passes the test |
| Batch.CollectSelect | converter.py:119-131 | a loop that reads only the selected rows finishes exactly when each selected row reads, and output k is the k-th selected row's reading |
| Batch.MapKeptFilter | converter.py:81-98 | a loop that appends one output per kept row yields exactly the kept rows' outputs, in order |
| Batch.CollectKept | process_permits_from_parks.py:76-106 | a loop that outputs one value for each row passing a test and nothing for the others outputs exactly those rows' values, in row order |
| Batch.ReadMembers | process_permits_from_parks.py:76-96 | values read one for one from a list are exactly the readings of its members |
| Scheduler.NormalizedLocationOutcome | scheduler.py:10-19 | normalization fails exactly on a Woodland name with no trailing digit, raising NameError (the `assert false` names an undefined `false`); otherwise it keeps the name or gives a normalized one |
| Scheduler.NormalizedLocation | scheduler.py:10-19 | normalization raises only NameError, and a name it returns is its input or a normal name (LW and a digit, "Lower Ross", "B.F. Day") |
| Scheduler.IsHomeField | scheduler.py:6-7 | a home field is exactly a normal name other than LW0, LW2, LW7, LW8 and LW9 |
| Scheduler.NormalizedDay | scheduler.py:22-23 | the normalized day is the first three characters, or the whole day when shorter |
| Scheduler.WoodlandOutcome | scheduler.py:10-13 | a Woodland name becomes "LW" and its last character when that is a digit, and raises NameError otherwise |
| Scheduler.NormalizedByKeywords | scheduler.py:14-19 | a name that is not Woodland becomes "Lower Ross" if it mentions "ross", else "B.F. Day" if it mentions "b f day", else stays as is |
| Scheduler.LowerRossFixed | scheduler.py:15-16 | "Lower Ross" normalizes to itself |
| Scheduler.BFDayFixed | scheduler.py:17-18 | "B.F. Day" normalizes to itself |
| Scheduler.NormalNameFixed | scheduler.py:10-19 | every name normalization produces normalizes to itself |
| Scheduler.NormalizedLocationIdempotent | scheduler.py:10-19 | normalizing twice is the same as normalizing once |
| Scheduler.HomeFieldsNormalized | scheduler.py:6-7 | each home field is already a normalized name |
| Scheduler.GetPermitDict | scheduler.py:26-41 | the permit loop builds the dictionary of the (date, normalized field) entries, or raises the first row's exception; StopIteration on an empty file |
| Scheduler.PermitDict | scheduler.py:26-41 | an empty file raises StopIteration; otherwise the index is built exactly when every data row stores its entry, and a failure is the first failing row's exception |
| Scheduler.MapOfLastWins | scheduler.py:40 | the dictionary's keys are exactly the stored keys, and a key maps to its last stored value |
| Scheduler.CollectLastWins | scheduler.py:37-40 | when every row stores one entry, the keys are the rows' keys and the last row with a key decides its value |
| Scheduler.PermitEntryOf | scheduler.py:38-40 | a permit row stores its time window, column 2, under its (date, normalized field) key |
| Scheduler.PermitDictLastWins | scheduler.py:26-41 | the permit dictionary has a key for each data row's (date, field), and the last such row's time window as its value |
| Scheduler.TimeStrRoundTrip | scheduler.py:44-46 | `%H:%M` reads back as the same hour and minute, and it is zero-padded to five characters, unlike the docstring's claim |
| Scheduler.TimeStr | scheduler.py:44-46 | `%H:%M` is two digits, a colon and two digits |
| Scheduler.DateStrRoundTrip | scheduler.py:49-50 | `%m/%d/%Y` reads back as the same date |
| Scheduler.DateStr | scheduler.py:49-50 | `%m/%d/%Y` is two digits, a slash, two digits, a slash and the year's digits |
| Calendar.PaddedField | scheduler.py:49-50 | a zero-padded two-digit month or day is read back whole |
| Scheduler.GetSoftballEvents | scheduler.py:118-129 | the softball loop's result is the events of the NCLL rows that have a game number, after the header row |
| Scheduler.SoftballEvent | scheduler.py:105-115 | a softball row that reads has a location column, and the event's location is its normalization |
| Scheduler.SoftballEventLocation | scheduler.py:105-115 | a softball event's location is already normalized |
| Scheduler.LeagueGamesKept | scheduler.py:122-128 | every kept event is an NCLL game read from a row with a game number, and each such row's event is kept exactly when it is an NCLL game |
| Scheduler.SoftballEventsSound | scheduler.py:118-129 | every softball event is an NCLL game with a normalized location, read from a data row that has a game number |
| Scheduler.SoftballEventsComplete | scheduler.py:118-129 | every data row has a first cell, and a row with a game number yields an event that is output exactly when it is an NCLL game |
| Scheduler.GetBaseballEvents | scheduler.py:145-153 | the baseball loop's result is the event of every data row, or the first row's exception |
| Scheduler.BaseballEventsAll | scheduler.py:132-153 | there is one baseball event per data row, in order, each read from its row |
| Converter.TeamName | converter.py:22-27 | a league team gets its sponsor name, a known outside team its full name, and any other name is kept |
| Converter.TeamNameIdempotent | converter.py:22-27 | renaming a renamed team changes nothing |
| Converter.TimeTextRoundTrip | converter.py:39-41 | `h:mm` reads back as the same hour and minute |
| Converter.TimeText | converter.py:39-41 | the time is the unpadded hour's digits, a colon and two minute digits |
| Converter.TimeTextUnpadded | converter.py:39-41 | the hour is not zero-padded: four characters below 10 o'clock, and a leading '0' only for hour 0 |
| Converter.DateTextRoundTrip | converter.py:48 | `month/day/year` reads back as the same date |
| Converter.DateText | converter.py:48 | the date is the unpadded month's digits, a slash, the unpadded day's digits, a slash and the year's digits |
| Converter.DateTextUnpadded | converter.py:48 | neither month nor day carries a leading zero |
| Converter.SoftballPlace | converter.py:58-63 | the three special parks map to their fixed (location, field) pairs |
| Converter.SoftballPlaceNumbered | converter.py:65-79 | any other park is renamed through the field table and its field is "Field " plus the number; Ballard Community Center field 2 becomes "Field 2 (West)" |
| Converter.SplitLocationAndFieldOnHash | converter.py:50-79 | "park # n" is read as the stripped park and the stripped field number |
| Converter.SplitLocationAndFieldWhole | converter.py:50-79 | without exactly one '#' the whole stripped text is the park, on field 1 |
| Converter.SplitLocationAndField | converter.py:50-79 | the field is "Softball Field", "Lower Ross" or begins with "Field "; what follows "Field " is the stripped text after a single `#`, which need not be a number (`SplitLocationAndFieldOnHash`), or "1" without a single `#`; Ballard Community Center field 2 becomes "Field 2 (West)" |
| Converter.BaseballLocationAndField | converter.py:100-114 | an empty or all-blank location raises IndexError; otherwise the field is "Field " and one digit |
| Converter.BaseballLocationAndFieldOf | converter.py:100-114 | "park d" gives the renamed park on field d |
| Converter.BaseballLocationAndFieldUnnumbered | converter.py:100-114 | a park without a trailing digit is on field 1 |
| Converter.GetSoftballEvents | converter.py:81-98 | there is one event per row that has a game number and a league team, in order, built from that row |
| Converter.GetBaseballEvents | converter.py:116-132 | the baseball loop reads the selected rows in order and stops at the first exception |
| Converter.BaseballEventsKept | converter.py:116-132 | the loop finishes exactly when every selected row reads, and output k is the k-th selected row's event |
| Converter.LeagueTeamRenamed | converter.py:89-92 | a kept game names at least one league team by its sponsor name |
| Converter.SoftballEventsLeague | converter.py:86-97 | each softball event has a league team, named by its sponsor name |
| Converter.CsvRowReadsBack | converter.py:43-48 | an event's CSV row has the header's seven columns, and its date and times read back as the event's |
| Permits.NinetyFootFieldsAre | process_permits_from_parks.py:63-64 | a field is 90-foot exactly for the four named diamonds; an unknown field raises KeyError |
| Permits.Is90ftField | process_permits_from_parks.py:63-64 | the test succeeds exactly on a known field and otherwise raises KeyError naming it |
| Permits.DaysAbbreviate | process_permits_from_parks.py:33-41 | each weekday maps to its first three letters, and different weekdays map differently |
| Permits.SixtyFtField | process_permits_from_parks.py:82-84 | a row routed to the 60-foot file names a known field that is not a 90-foot one |
| Permits.SortableDateRoundTrip | process_permits_from_parks.py:44-50 | a permit date "Mon d, yyyy" becomes its zero-padded "mm/dd" |
| Permits.SortableDate | process_permits_from_parks.py:44-50 | the date converts exactly when it reads as `%b %d, %Y`, else ValueError; the result is "mm/dd" |
| Permits.TwoDigitsLess | process_permits_from_parks.py:50 | two-digit fields compare as numbers, then by what follows |
| Permits.MonthDayOrder | process_permits_from_parks.py:44-50 | the "mm/dd" keys order dates by month, then day, and are equal exactly on the same month and day |
| Permits.TwoDigitsEqual | process_permits_from_parks.py:50 | two "mm" fields followed by text are equal exactly when the numbers and the texts are |
| Permits.KeyAll | process_permits_from_parks.py:71-73 | computing the keys of all rows in order succeeds exactly when every row has one; otherwise it raises the exception of the first row without one |
| Permits.GetRows | process_permits_from_parks.py:67-73 | sorting succeeds exactly when every data row has a sort key, and otherwise raises the exception of the first row without one |
| Permits.RowsWithKeyItems | process_permits_from_parks.py:71-73 | the rows with a given key are the items with that key, in the same order |
| Permits.SortedKeyedBy | process_permits_from_parks.py:71-73 | sorting keeps each row paired with its own key |
| Permits.KeyOrderedRows | process_permits_from_parks.py:71-73 | rows in key order, each with its own key, are sorted by (date, field) |
| Permits.SortRows | process_permits_from_parks.py:71-73 | sorting gives a permutation of the rows, ordered by (date, field), keeping the input order among equal keys |
| Permits.GetRowsSorts | process_permits_from_parks.py:67-73 | the header stays first, and the data rows are permuted, sorted by (date, field) and stable |
| Permits.CreateSixtyFtFile | process_permits_from_parks.py:76-96 | the 60-foot loop writes the header, then the reshaped non-90-foot rows |
| Permits.CreateNinetyFtFile | process_permits_from_parks.py:99-106 | the 90-foot loop writes the first row, then the 90-foot rows unchanged |
| Permits.SixtyFtFile | process_permits_from_parks.py:76-96 | the 60-foot file is written exactly when every data row passes the loop, and it starts with the fixed header |
| Permits.NinetyFtFile | process_permits_from_parks.py:99-106 | an empty input raises IndexError; otherwise the file is written exactly when every data row names a known field, and it starts with the input's first row |
| Permits.FilesPartition | process_permits_from_parks.py:76-106 | each data row lands in exactly one of the two files |
| Permits.NinetyFtFileRows | process_permits_from_parks.py:99-106 | the 90-foot file is the header, then exactly the data rows on 90-foot fields, unchanged and in input order |
| Permits.SixtyFtFileRows | process_permits_from_parks.py:76-96 | the 60-foot file is its header, then line k is the reshaping of the k-th data row on a 60-foot field, one line per such row |
| Permits.NinetyFtFollowsSixtyFt | process_permits_from_parks.py:109-112 | once the 60-foot file is written, the 90-foot file is too; on an empty input only the 60-foot header is written before IndexError |
| ParksPermits.DayMonthInjective | process_permits_from_parks.py:53-60 | "d-Mon" tells dates with different day or month apart |
| ParksPermits.CsvDateFormatRoundTrip | process_permits_from_parks.py:53-60 | a permit date "Mon d, yyyy" becomes "d-Mon" |
| ParksPermits.CsvDateFormat | process_permits_from_parks.py:53-60 | the date converts exactly when it reads as `%b %d, %Y`, else ValueError; the result is the day's digits, a dash and a month abbreviation |
| ParksPermits.DocstringExamples | process_permits_from_parks.py:47-57 | April 6, 2023 is written "Apr 6, 2023", "6-Apr" and "04/06" |
| ParksPermits.SortableDateLongMonth | process_permits_from_parks.py:47-50 | the docstring's input "April 6, 2023" is rejected by `%b` with ValueError |
| ParksPermits.DateCellShape | process_permits_from_parks.py:87 | the date column is the row's permit date as "d-Mon" |
| ParksPermits.SixtyFtRowShape | process_permits_from_parks.py:85-95 | a 60-foot line has the header's eight columns: date, day abbreviation, permit, field short name, then four blanks |
| PermitsToFields.FormattedDate | permits_to_fields.py:44-45 | the formatted date holds no comma, and it is the whole string or what precedes its first comma |
| PermitsToFields.FormattedDateOf | permits_to_fields.py:44-45 | a comma-free prefix before a comma is returned as is |
| PermitsToFields.FormattedDateOfText | permits_to_fields.py:44-45 | a permit date "Mon d, yyyy" becomes "Mon d" |
| PermitsToFields.SixtyFtRowShape | permits_to_fields.py:73-74 | a 60-foot line has the header's four columns: date without year, day abbreviation, permit, field short name |
| GameChanger.Location | paul_schedule_to_gamechanger.py:37-45 | the lower Ross field becomes "Lower Ross", a bye becomes "BYE", and any other place is followed by its field number |
| GameChanger.IsRowNcll | paul_schedule_to_gamechanger.py:56-57 | a row of 14 or more cells is a league game exactly when either team id holds "NC-"; a 13-cell row is one when its home id does and otherwise raises IndexError; a shorter row raises IndexError |
| GameChanger.GameRow | paul_schedule_to_gamechanger.py:60-88 | a converted row has one cell per output header |
| GameChanger.GameRowOf | paul_schedule_to_gamechanger.py:62-86 | a 28-cell row with the game's cells set and every other cell blank is the game row |
| GameChanger.GameRowColumns | paul_schedule_to_gamechanger.py:62-70 | the game row holds each given cell in its own column and a blank in every other column |
| GameChanger.ConvertedRowIs | paul_schedule_to_gamechanger.py:60-88 | a league row converts to the game row of its date, times, location and teams |
| GameChanger.ConvertedRow | paul_schedule_to_gamechanger.py:60-88 | conversion raises only IndexError or AssertionError; a converted row has one cell per output header and a league team 1 taken from the home or away id |
| GameChanger.ConvertRow | paul_schedule_to_gamechanger.py:60-88 | filling the blank row cell by cell, with the opponent moved to the name column, gives the converted row |
| GameChanger.ConvertedRowFaults | paul_schedule_to_gamechanger.py:60-88 | conversion succeeds exactly on a league row of at least 14 cells; a shorter row raises IndexError and a non-league row AssertionError |
| GameChanger.ConvertedRowColumns | paul_schedule_to_gamechanger.py:62-70 | the row has 28 cells with dates, times, "Game" titles and the location in place, and every cell not set is blank |
| GameChanger.TeamColumnsSplit | paul_schedule_to_gamechanger.py:71-86 | with a league team on either side, team 1 is a league id, home exactly when the home team is one, team 2 fills exactly one of its two columns, and the two teams are the original pair |
| GameChanger.ConvertedRowTeams | paul_schedule_to_gamechanger.py:71-86 | team 1 is a league id, marked home exactly when the home team is the league's; the opponent sits in the id column if it is a league id and in the name column otherwise |
| GameChanger.ConvertSchedule | paul_schedule_to_gamechanger.py:91-98 | the module loop skips the header and converts exactly the league rows |
| GameChanger.ConvertedSchedule | paul_schedule_to_gamechanger.py:91-98 | no header raises StopIteration; otherwise the run finishes exactly when every data row passes the loop, and a failure is the first failing row's exception |
| GameChanger.NcllStepNeverAsserts | paul_schedule_to_gamechanger.py:96-98 | the loop never reaches the assertion in `convert_row`, and each kept row is converted |
| GameChanger.ConvertedScheduleFaults | paul_schedule_to_gamechanger.py:91-98 | the loop can fail only with StopIteration (no header) or IndexError (a short row), never on the assertion in `convert_row` |
| GameChanger.ConvertedScheduleRows | paul_schedule_to_gamechanger.py:91-98 | every output row has 28 cells and a league team 1 |
| SyncCalendar.ParseCsvFile | scripts/sync_calendar.py:42-52 | the events are the rows with a date and a time window, in order |
| SyncCalendar.ParseCsvFileKeeps | scripts/sync_calendar.py:48-50 | a row is kept exactly when its date and its time window are non-empty |
| SyncCalendar.BumpYear | scripts/sync_calendar.py:61-62 | a 2023 date moves to 2025 and every other date is kept, day and month unchanged |
| SyncCalendar.BumpedDate | scripts/sync_calendar.py:58-63 | a parsed date is kept except that 2023 becomes 2025, so no result is in 2023; no date parses to none |
| SyncCalendar.TimeRange | scripts/sync_calendar.py:66-80 | a window parses exactly when it splits on " - " into two parts that both read as `%I:%M %p` after stripping, and then it is those two times |
| SyncCalendar.MomentsOn | scripts/sync_calendar.py:72-84 | the start is the start time on the given date and the end is the end time; the end is on the same day when later than the start and the next day otherwise; only the last date with such an end gives nothing |
| SyncCalendar.ParseDateTime | scripts/sync_calendar.py:54-94 | gives nothing exactly when the stripped date does not read as `%B %d, %Y`, the window does not parse, or the end falls past the last date; otherwise the moments of the window on the bumped date, the end on the same day when later and the next day otherwise |
| SyncCalendar.TimeRangeOfText | scripts/sync_calendar.py:66-80 | a window written "03:00 PM - 08:15 PM" reads back as its two times |
| SyncCalendar.ParseDateTimeOfText | scripts/sync_calendar.py:54-94 | a date written `%B %d, %Y` and a window written in `%I:%M %p` read back as that window on the bumped date |
| SyncCalendar.ParseDateTimeDuration | scripts/sync_calendar.py:71-84 | a parsed event lasts more than zero minutes and at most one day |
| SyncCalendar.EventIdDeterministic | scripts/sync_calendar.py:96-101 | rows with the same date, time window and facility get the same id |
| SyncCalendar.EventIdUnique | scripts/sync_calendar.py:96-101 | with a collision-free digest, two rows get one id exactly when their date, time window and facility texts agree, if date and time hold no "_" |
| SyncCalendar.DescriptionLines | scripts/sync_calendar.py:123-134 | the description has the four fixed lines, then a setup line and an attendance line exactly when those cells are non-empty |
| SyncCalendar.SetupLinePresent | scripts/sync_calendar.py:130-131 | the description has a setup line exactly when the row has a setup time |
| SyncCalendar.CreateCalendarEvent | scripts/sync_calendar.py:103-163 | an event is titled "NCLL Game - " and the facility, and is built only from a row with a date, a time and a facility |
| SyncCalendar.CreateCalendarEventParses | scripts/sync_calendar.py:103-163 | a row gives an event exactly when its date and time parse; the event carries the parsed start and end, and its description is the lines joined by newlines |
| SyncCalendar.ByIdLastWins | scripts/sync_calendar.py:209-213 | every stored event was made from some row under its own id, and the last row giving an id decides that id's event |
| SyncCalendar.NewEventsLastWins | scripts/sync_calendar.py:208-213 | the new events are exactly the parsed rows' events by id, the last row with an id winning |
| SyncCalendar.NewEvents | scripts/sync_calendar.py:208-213 | the loop builds the new events by id from the CSV rows |
| SyncCalendar.SyncPlan | scripts/sync_calendar.py:218-260 | creates, updates and deletes are disjoint; creates and updates are new ids and deletes existing ones |
| SyncCalendar.SyncPlanEmptyIffInSync | scripts/sync_calendar.py:218-260 | nothing is created, updated or deleted exactly when the calendar already holds the same ids with unchanged events |
| SyncCalendar.ApplyPlanReconciles | scripts/sync_calendar.py:218-260 | after the plan is carried out the calendar is in sync, and planning again does nothing |
| SyncCalendar.DecideCreatesAndUpdates | scripts/sync_calendar.py:218-246 | the loop creates the ids missing from the calendar and updates those whose summary, times or location changed, and counts each |
| SyncCalendar.PendingStep | scripts/sync_calendar.py:218-246 | visiting one more new id adds it to the creates when the calendar lacks it, to the updates when its event changed, and otherwise to neither |
| SyncCalendar.PassEnds | scripts/sync_calendar.py:218-246 | nothing is decided before the pass, and after it the creates and updates are those of the plan |
| SyncCalendar.DecideDeletes | scripts/sync_calendar.py:248-260 | the loop deletes the calendar ids that are not new events, and counts them |
| SyncCalendar.SyncEventsToCalendar | scripts/sync_calendar.py:194-271 | the sync carries out the plan for the CSV's new events, and its counts are the plan's sizes |

## Left out

- Reading and writing files, and `__main__` blocks, are not modelled. This covers `open`, `csv.reader`, `csv.writer`, `csv.DictReader`, `pandas.read_excel`, `sys.argv` and `os.listdir`. A script's input is a sequence of rows. Its output is the sequence of rows it would write. A file left half-written when an exception stops a script is not modelled.
- `create_csv_from_events` in scheduler.py and converter.py: only the row format is modelled (`Converter.CsvRow`, `Scheduler.TimeStr`, `Scheduler.DateStr`), not the writing.
- The Google Calendar client is not modelled. The insert, update, delete and list calls and `HttpError` handling, including the error count, are left out. So is `get_existing_events` (scripts/sync_calendar.py:165-192): the existing events are an input map of the same record type as the new events. Events fetched from the service may hold other fields or formats; the model compares only the four fields the script compares.
- `SyncCalendar.EventId`: the MD5 digest is a function parameter, `digest`. The model proves that the id depends only on the date, time window and facility (`EventIdDeterministic`), and that it tells rows apart when the digest does not collide (`EventIdUnique`). MD5 collisions are not modelled. A missing cell and a cell holding the text "None" print the same in the key.
- Time zones, `pytz`, `isoformat`, and the event's `timeZone` and `reminders` fields are left out. Start and end are local date and minute-of-day values.
- `print` diagnostics are left out.
- Pandas cell typing is abstracted. The spreadsheet rows are records of already typed cells. `math.isfinite(row[0])` becomes a game number that is present or absent. A team cell that is NaN is not modelled.
- `strptime` details:
  - a space in a format matches exactly one space, where Python accepts any run of whitespace;
  - `%d` and `%I` written with a leading space are not accepted, while some Python versions accept a space-padded day or hour; the time cells read at scheduler.py:112-113 are not stripped first, so such a cell may read there in Python and not in the model;
  - years below 1000 are not round-tripped.
- `lower`, `isdigit`, `isspace` and `strip` are modelled on ASCII only. Unicode digits and Unicode whitespace are out of scope.
- `assert` statements are always active. Running under `python -O` is not modelled.
- `Scheduler.TimeStrRoundTrip` follows the code, which zero-pads the hour. The docstring at scheduler.py:45 says the hour is not padded.
- `ParksPermits.SortableDateLongMonth` follows the code: the docstring example at process_permits_from_parks.py:47 is rejected with ValueError.
- permits_to_fields.py:63 is unreachable after the `return` above it, so it has no counterpart.
- `GameChanger.ConvertRow`: the source's list is updated in place. The model updates a local sequence one cell at a time instead, so list aliasing is not modelled.
- The `Event` classes in scheduler.py and converter.py are never changed after construction. They are modelled as datatypes.
- `sync_calendar.py`'s `main`, credential loading and service setup are left out.

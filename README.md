# Academic calendar (calendario-ies): a verified model

The application is a client-only calendar of academic events: exams
("evaluación"), practical work ("tp") and assignments ("tarea") for the
subjects of a school year. It loads its events from a published Google
Sheet as CSV. When the sheet cannot be read it falls back on a fixed list
of seven events. It shows the events as a month grid and as a list of
upcoming events. This project models the logic behind those views:

- **Loading.** `csv.dfy` (module `Csv`) models the CSV parser: a quote-aware
  character loop per line, then one row object per data line. `convert.dfy`
  (`Convert`) models the conversion of one row into an event: it finds the
  columns by synonym, normalizes the date and normalizes the type.
  `fetch.dfy` (`SheetFetch`) models the loop over the three candidate
  addresses and the three ways the load fails. `hook.dfy` (`EventsHook`)
  models the hook's four state fields.
- **Text.** `text.dfy` (`Text`) holds `trim`, `toLowerCase`,
  `normalize("NFD")` and the strip of U+0300..U+036F. It covers ASCII and
  the Spanish accented letters. It also holds `padStart`, `split` and the
  default code-unit order of `sort()`. `dates.dfy` (`Dates`) handles
  "yyyy-MM-dd" and "yyyy-MM" strings, a Gregorian validity check and day
  numbers.
- **Views.** `eventtypes.dfy` (`EventTypes`) holds the type normalization
  and the colour and label switches the views share. `lists.dfy` (`Lists`)
  holds `filter` and a stable sort. `calendar.dfy` (`CalendarView`) covers
  the filters, grouping by day, the subject list, the jump to the earliest
  event's month, the page address, swipes and the component's state.
  `listview.dfy` (`ListView`) models the upcoming list. `daycell.dfy`
  (`DayCell`) models one cell of the grid.
- **Fixture.** `fixture.dfy` (`Fixture`) holds the fallback list and what
  holds of it.

The network, the clock and the JavaScript `Date` parser are inputs to the
model:

- the responses of the candidate addresses are a sequence of
  `Response` values;
- "today" is a parameter;
- the general `new Date(s)` parse is a function parameter `engine`.

State that the source changes step by step is modelled imperatively. These
are the CSV loops, the candidate loop, the grouping loop, and the state of
the calendar, the list panel and the hook. Each method is proved against a
specification function. The rest is functions and lemmas.

Where the code departs from the intent, the model follows the code. Each of
these is proved:

- a body the HTML/CSV sniff rejected is still parsed when no later address
  answers (`SheetFetch.RejectedBodyKept`);
- a failing HTTP status is never recorded as the error
  (`SheetFetch.StatusIsNotAnError`);
- a type made only of a combining mark passes the presence check and is
  emitted as "" (`Convert.LoneMarkGivesEmptyType`);
- the `"evaluación"` case of both switches is dead code
  (`EventTypes.AccentedCaseUnreachable`);
- a touch coordinate of 0 counts as missing, because the handlers test it
  for truthiness (`CalendarView.Present`).

## Model

| member | source | states |
|---|---|---|
| Text.Trim | src/services/googleSheets.js:39 | the result is the input with a white-space prefix and a white-space suffix cut off, has no white space at either end, and an already trimmed string is returned unchanged |
| Text.TrimBlank | src/services/googleSheets.js:15 | a line trims to "" exactly when every character is white space (the blank-line filter and the sniff's `trim().length > 0`) |
| Text.TrimIdempotent | src/services/googleSheets.js:148-152 | trimming a trimmed string changes nothing |
| Text.Lower | src/services/googleSheets.js:149 | `toLowerCase` keeps the length, maps each upper-case letter in place to its lower-case letter (32 code points on), keeps every other character, and returns lower-case text unchanged |
| Text.Decompose | src/services/googleSheets.js:150 | NFD maps an accented letter to its base letter followed by one combining mark in U+0300..U+036F, and every other character to itself |
| Text.NfdProperties | src/services/googleSheets.js:150 | after NFD no precomposed letter remains, no upper-case letter appears, and decomposed text is unchanged |
| Text.StripMarksProperties | src/services/googleSheets.js:151 | the strip keeps only input characters outside U+0300..U+036F, and all of them when there is no mark |
| Text.Normalize | src/services/googleSheets.js:148-152 | the normalized type is lower-case, mark-free and trimmed |
| Text.NormalFormIsFixed | src/services/googleSheets.js:148-152 | a lower-case, mark-free, trimmed string normalizes to itself |
| Text.NormalizeIdempotent | src/services/googleSheets.js:148-152 | normalizing a normalized type changes nothing |
| Text.NormalizeOneAccent | src/services/googleSheets.js:148-152 | a word with one accented letter normalizes to the same word with the plain letter |
| Text.NatToString | src/components/Calendar/ListView.jsx:128 | `${n}` is a non-empty string of decimal digits with no leading zero |
| Text.NatToStringValue | src/components/Calendar/ListView.jsx:128 | the digits written for n read back as n |
| Text.CountedReadsBack | src/components/Calendar/ListView.jsx:153-154 | a count label starts with the count's digits and a space; the noun is the singular exactly when the count is 1 |
| Text.PadZeros | src/services/googleSheets.js:120-121 | `padStart(w, "0")` ends with the input, is at least w long, and adds only zeros in front |
| Text.PadZerosValue | src/services/googleSheets.js:120-121 | zero-padding digits keeps their value |
| Text.Split | src/services/googleSheets.js:15 | `split` on one character gives one more piece than there are separators, none holding the separator |
| Text.SplitJoin | src/services/googleSheets.js:15 | joining the pieces of a split with the separator gives back the text |
| Text.JoinSplit | src/services/googleSheets.js:15 | splitting a join of separator-free pieces gives back the pieces |
| Text.SplitWhole | src/services/googleSheets.js:15 | a string without the separator splits into itself alone |
| Text.SplitFirst | src/services/googleSheets.js:15 | a separator-free first piece followed by the separator comes off as the first piece |
| Text.SplitAtSep | src/services/googleSheets.js:15 | a leading separator splits off an empty piece |
| Text.SplitAtChar | src/services/googleSheets.js:15 | a leading ordinary character joins the first piece |
| Text.LexIrreflexive | src/components/Calendar/Calendar.jsx:132 | no string sorts before itself in the default `sort()` order |
| Text.LexTotal | src/components/Calendar/Calendar.jsx:132 | of two different strings exactly one sorts first |
| Text.LexTransitive | src/components/Calendar/Calendar.jsx:132 | the default `sort()` order is transitive |
| Dates.DaysInMonth | src/components/Calendar/ListView.jsx:65-66 | months have 28 to 31 days, February 29 exactly in leap years, and April, June, September and November 30 |
| Dates.ParseDay | src/components/Calendar/ListView.jsx:65-66 | `parse(s, "yyyy-MM-dd")` plus `isValid` succeeds exactly for a "dddd-dd-dd" string naming a real calendar day, giving its year, month and day |
| Dates.PaddedValue | src/components/Calendar/Calendar.jsx:215 | a zero-padded number has exactly the width and reads back as the number |
| Dates.FormatParseDay | src/components/Calendar/Calendar.jsx:214-217 | a day formatted as "yyyy-MM-dd" has the ISO shape and parses back to the same day |
| Dates.FormatMonth | src/components/Calendar/Calendar.jsx:224 | the "yyyy-MM" month parameter is never empty |
| Dates.ParseMonth | src/components/Calendar/Calendar.jsx:40-45 | a month read from the address always has a month number in 1..12 |
| Dates.FormatParseMonth | src/components/Calendar/Calendar.jsx:38-45 | a month written to the address reads back as the same month |
| Dates.NextDay | src/components/Calendar/ListView.jsx:101-102 | the day after a valid day is a valid day |
| Dates.NextDayNumber | src/components/Calendar/ListView.jsx:101-104 | tomorrow's day number is today's plus one |
| Dates.DayNumberOrder | src/components/Calendar/ListView.jsx:68-70 | comparing day numbers is the calendar order of (year, month, day), and equal numbers are the same day |
| Csv.Scan | src/services/googleSheets.js:19-48 | the scan of a line always yields at least one field |
| Csv.ParseLine | src/services/googleSheets.js:19-49 | the character loop returns exactly the trimmed fields of the quote-aware scan |
| Csv.ScanStep | src/services/googleSheets.js:28-43 | the four cases of one loop step: a doubled quote inside quotes adds one quote and skips two characters; any other quote toggles the mode; an unquoted comma ends the field; any other character is appended |
| Csv.FieldCount | src/services/googleSheets.js:37-47 | a line has one field more than it has commas outside quotes |
| Csv.ScanEscapedPrefix | src/services/googleSheets.js:29-32 | scanning an escaped field body in quoted mode yields that body, whatever follows |
| Csv.ScanEscaped | src/services/googleSheets.js:29-32 | inside quotes a doubled quote decodes to one quote, and the closing quote returns to unquoted mode |
| Csv.QuotedRoundTrip | src/services/googleSheets.js:28-36 | values written with every field quoted, quotes doubled, read back as the same values, commas included |
| Csv.QuotedFields | src/services/googleSheets.js:39-47 | such a line's fields are the trimmed values |
| Csv.UnquotedLineIsSplit | src/services/googleSheets.js:37-40 | a line without quotes is split at every comma |
| Csv.TrimAll | src/services/googleSheets.js:39 | every field is trimmed and the field count is kept |
| Csv.StripQuotes | src/services/googleSheets.js:53 | a value wrapped in quotes loses both; a value with only a leading or only a trailing quote loses that one; a value without quotes is left as it is |
| Csv.Put | src/services/googleSheets.js:64 | an assignment adds at most one entry |
| Csv.PutLookup | src/services/googleSheets.js:64 | `row[key] = value` makes the key read as the value; every other key reads as before |
| Csv.PutKeys | src/services/googleSheets.js:64 | a new key is appended to the key order; an existing key keeps its place and the order is unchanged |
| Csv.PutDistinct | src/services/googleSheets.js:64 | an assignment keeps the keys distinct |
| Csv.LookupFirst | src/services/googleSheets.js:64 | a key set once reads as its value |
| Csv.BuildRow | src/services/googleSheets.js:59-65 | the forEach over the headers builds exactly the specified row |
| Csv.RowKeys | src/services/googleSheets.js:59-65 | a row's keys are the distinct header names in order of first appearance |
| Csv.RowKeyOrder | src/services/googleSheets.js:59-65 | the forEach over the headers leaves the keys in order of first appearance |
| Csv.RowLookup | src/services/googleSheets.js:60-65 | a header name reads as the field of its last column (a later duplicate header overwrites), and any other name is absent |
| Csv.ColumnValue | src/services/googleSheets.js:61-64 | with distinct headers, column j reads as field j with the quotes stripped, or as "" when the line is short |
| Csv.LinesProperties | src/services/googleSheets.js:15 | the lines hold no LF and none is blank |
| Csv.NonBlank | src/services/googleSheets.js:15 | the filter never lengthens the list |
| Csv.NonBlankKeeps | src/services/googleSheets.js:15 | the filter keeps only non-blank pieces of the input, and drops everything exactly when every piece is blank |
| Csv.NonBlankKept | src/services/googleSheets.js:15 | every kept piece is a non-blank piece of the input |
| Csv.NonBlankEmpty | src/services/googleSheets.js:15 | nothing is kept exactly when every piece trims to nothing |
| Csv.Headers | src/services/googleSheets.js:52-53 | there is one column name per field of the header line |
| Csv.RowsOf | src/services/googleSheets.js:57-67 | there is one row per data line, each built from that line's fields |
| Csv.CsvRows | src/services/googleSheets.js:14-70 | N+1 non-blank lines give exactly N rows, and no lines give none |
| Csv.HeaderNames | src/services/googleSheets.js:52-53 | the header names are the header line's fields with the surrounding quotes stripped |
| Csv.ParseRows | src/services/googleSheets.js:56-67 | the loop over the data lines builds exactly one row per line after the header |
| Csv.ParseCsv | src/services/googleSheets.js:14-70 | the parser's loop returns exactly the specified rows |
| Csv.BlankTextHasNoRows | src/services/googleSheets.js:15-16 | text with no non-blank line parses to no rows |
| Csv.RowShape | src/services/googleSheets.js:56-67 | every row's keys are exactly the distinct header names |
| Convert.ColumnNames | src/services/googleSheets.js:82-83 | each key is compared as `k.toLowerCase().trim()` |
| Convert.FindKey | src/services/googleSheets.js:82-84 | `find` returns the first key whose lower-cased trimmed form equals the synonym's, or none when no key matches |
| Convert.FirstKeyValue | src/services/googleSheets.js:85-86 | reading the found key gives the value of that first matching entry |
| Convert.ResolveAnswer | src/services/googleSheets.js:85-87 | a first synonym with a non-empty value answers with that value trimmed |
| Convert.ResolveSkip | src/services/googleSheets.js:81-88 | a first synonym with no key or an empty value is passed over |
| Convert.ResolveSkipAll | src/services/googleSheets.js:81-88 | all synonyms before the first usable one are passed over |
| Convert.ResolveFirstUsable | src/services/googleSheets.js:80-90 | getValue is the trimmed value of the first usable synonym |
| Convert.ResolveNoneUsable | src/services/googleSheets.js:89 | with no usable synonym getValue is "" |
| Convert.ResolveIgnoresCase | src/services/googleSheets.js:82-84 | headers that differ only in case and surrounding space give the same value |
| Convert.FindKeyIgnoresCase | src/services/googleSheets.js:82-84 | the found position does not depend on the case or surrounding space of the headers |
| Convert.NamedKeyNonEmpty | src/services/googleSheets.js:85 | a key that matches a non-blank synonym is non-empty, so the `foundKey &&` test never fails |
| Convert.GetValue | src/services/googleSheets.js:80-90 | the synonym loop with its early return gives exactly the specified value |
| Convert.SplitDate | src/services/googleSheets.js:119 | `split(/[-\/]/)` always yields at least one piece |
| Convert.DmyParts | src/services/googleSheets.js:119-122 | a day-month-year date splits into its day, month and year digits |
| Convert.DmyWidths | src/services/googleSheets.js:118 | a date of the day-month-year pattern has a layout of 1 or 2 day digits and 1 or 2 month digits |
| Convert.IsoDateKept | src/services/googleSheets.js:114-116 | an ISO-shaped date is kept verbatim whatever the general parser says |
| Convert.DmyIsNotIso | src/services/googleSheets.js:114-118 | no date matches both patterns |
| Convert.DmyWidthsUnique | src/services/googleSheets.js:118 | the field widths of a day-month-year date are determined by the string |
| Convert.DmyReordered | src/services/googleSheets.js:118-124 | a day-month-year date becomes year, month and day, each zero-padded to two digits, in ISO shape |
| Convert.DmyNormalized | src/services/googleSheets.js:118-124 | the result is year + "-" + padded month + "-" + padded day |
| Convert.DmyExample | src/services/googleSheets.js:118-124 | "15/01/2025" becomes "2025-01-15" |
| Convert.DmyPaddedExample | src/services/googleSheets.js:120-121 | "5-3-2025" becomes "2025-03-05" |
| Convert.EngineDateFormatted | src/services/googleSheets.js:126-132 | a date only the general parser reads is written from its year, month and day fields |
| Convert.ConvertFields | src/services/googleSheets.js:104-160 | an event is kept exactly when date, title and type are present and the date normalizes to a readable calendar day; its date is that normalized date, its type the normalized type, and title, subject and description pass through unchanged |
| Convert.ConvertRow | src/services/googleSheets.js:77-161 | a row converts exactly when the date, title and type found under their column synonyms are present and the date normalizes to a readable day; the event is built from those resolved values, with the date and type normalized |
| Convert.IsoRowKept | src/services/googleSheets.js:110-142 | a row with a valid ISO date, a title and a type is kept with that date and the normalized type |
| Convert.UnreadableDateDropped | src/services/googleSheets.js:126-135 | a row whose date no pattern and no parser reads is dropped |
| Convert.DmyRowKept | src/services/googleSheets.js:118-142 | a day-month-year date naming a real day is kept, reordered into a readable ISO date |
| Convert.EventTypeStable | src/services/googleSheets.js:148-152 | normalizing an emitted type again changes nothing |
| Convert.LoneMarkGivesEmptyType | src/services/googleSheets.js:105-107 | the presence check precedes normalization, so a type of a lone combining mark yields an event whose type is "" |
| SheetFetch.LastOkBody | src/services/googleSheets.js:196-199 | there is a kept body exactly when some tried answer was `ok` |
| SheetFetch.LastThrown | src/services/googleSheets.js:214-216 | there is a recorded error exactly when some tried attempt threw |
| SheetFetch.TryCandidates | src/services/googleSheets.js:177-218 | the loop stops at the first answer passing the sniff; it keeps the body of the last `ok` answer and the message of the last exception |
| SheetFetch.PrefixStep | src/services/googleSheets.js:177-218 | one more attempt becomes the last `ok` body or the last exception when it is of that kind, and leaves the other unchanged |
| SheetFetch.AcceptedBodyParsed | src/services/googleSheets.js:202-211 | when an answer passes the sniff, its body is the text parsed, and it is non-blank, free of "<!DOCTYPE", and holds a comma and a newline |
| SheetFetch.RejectedBodyKept | src/services/googleSheets.js:199-213 | with no answer passing the sniff, the last `ok` body is still parsed, HTML included |
| SheetFetch.StatusIsNotAnError | src/services/googleSheets.js:214-216 | answers that never throw leave no error message, whatever their status |
| SheetFetch.Message | src/services/googleSheets.js:220-241 | the thrown message is never empty, and it is the last exception's message when that is non-empty |
| SheetFetch.FilterMap | src/services/googleSheets.js:234-236 | map-then-drop-null never lengthens the list |
| SheetFetch.FilterMapKeeps | src/services/googleSheets.js:234-236 | every kept value is the conversion of some row, and the result is empty exactly when no row converts |
| SheetFetch.FilterMapConcat | src/services/googleSheets.js:234-236 | conversion keeps the rows' order |
| SheetFetch.ConvertAll | src/services/googleSheets.js:234-236 | every event has a readable date and a normalized type; none exactly when no row converts |
| SheetFetch.Outcome | src/services/googleSheets.js:220-244 | no text fails as unreachable with the last exception's message; no rows fails as an empty sheet; success with the converted events exactly when some row converts, and the no-valid-events failure exactly when rows exist but none converts |
| SheetFetch.FetchEventsFromSheet | src/services/googleSheets.js:167-248 | the service returns exactly that outcome for the responses tried |
| SheetFetch.HeaderOnlyIsEmpty | src/services/googleSheets.js:229-231 | a text with only a header line is an empty sheet |
| EventTypes.NormalizeType | src/components/Calendar/Calendar.jsx:178-185 | the guarded normalization returns "" for "" and a lower-case, mark-free, trimmed type otherwise |
| EventTypes.GuardIsRedundant | src/components/Calendar/DayCell.jsx:21-27 | the unguarded normalization of the day cell agrees with the guarded one on every string |
| EventTypes.EventColor | src/components/Calendar/DayCell.jsx:30-43 | the colour is always one of red, blue, green or grey |
| EventTypes.ColorClasses | src/components/Calendar/DayCell.jsx:30-43 | red exactly for "evaluacion", blue exactly for "tp", green exactly for "tarea", grey exactly for every other normalized type |
| EventTypes.AccentedCaseUnreachable | src/components/Calendar/DayCell.jsx:33-35 | no type normalizes to "evaluación", so that case is never taken |
| EventTypes.FormatEventType | src/components/Calendar/DayCell.jsx:46-59 | a type normalizing to evaluacion, tp or tarea gets its fixed label; any other type is shown as written |
| EventTypes.KnownTypeMappings | src/components/Calendar/DayCell.jsx:30-59 | the three known types get the labels "Evaluación", "TP" and "Tarea" and the colours red, blue and green |
| EventTypes.EvaluationSpelling | src/components/Calendar/Calendar.jsx:178-185 | "evaluación" and "Evaluación" both normalize to "evaluacion" |
| EventTypes.PlainSpelling | src/components/Calendar/Calendar.jsx:178-185 | "tp", "TP", "tarea", "Tarea" and "evaluacion" normalize to their lower-case spelling |
| EventTypes.LabelNormalizesBack | src/components/Calendar/DayCell.jsx:46-59 | the label of a known type normalizes back to that type |
| EventTypes.FormatIdempotent | src/components/Calendar/DayCell.jsx:46-59 | formatting a label again leaves it as it is, and a label has its event's colour |
| EventTypes.OptionAgrees | src/components/Calendar/FilterBar.jsx:21-23 | each selectable type's caption and colour are the label and colour its events get |
| EventTypes.KnownOption | src/components/Calendar/FilterBar.jsx:21-23 | "evaluación", "tp" and "tarea" are labelled and coloured as the filter bar shows them |
| EventTypes.OptionsNormalize | src/components/Calendar/FilterBar.jsx:19-24 | each selectable type normalizes to one of the three known types, and two of them normalize alike exactly when they are the same option |
| EventTypes.OptionNormal | src/components/Calendar/FilterBar.jsx:19-24 | the k-th selectable type normalizes to the k-th known type |
| Lists.Keep | src/components/Calendar/Calendar.jsx:190-197 | `filter` never lengthens the list |
| Lists.KeepMembers | src/components/Calendar/Calendar.jsx:190-197 | an element is kept exactly when it is in the list and passes the test |
| Lists.KeepConcat | src/components/Calendar/Calendar.jsx:190-197 | filtering keeps the order of the list |
| Lists.KeepAll | src/components/Calendar/Calendar.jsx:190-197 | when every element passes, the list is returned unchanged |
| Lists.KeepIdempotent | src/components/Calendar/Calendar.jsx:190-197 | filtering twice is filtering once |
| Lists.Insert | src/components/Calendar/ListView.jsx:74-83 | inserting into a sorted list gives a sorted list holding one more element |
| Lists.StableSort | src/components/Calendar/ListView.jsx:74-83 | the comparator sort returns a permutation of the list, ordered by key |
| Lists.InsertStable | src/components/Calendar/ListView.jsx:74-83 | an inserted element goes behind every element of its own key |
| Lists.SortStable | src/components/Calendar/ListView.jsx:74-83 | the sort is stable: elements of equal key keep their relative order |
| CalendarView.FilterEvents | src/components/Calendar/Calendar.jsx:188-198 | an event is kept exactly when its normalized type equals the normalized selection (or no type is selected) and its subject equals the selected subject (or none is selected) |
| CalendarView.NoFilterKeepsAll | src/components/Calendar/Calendar.jsx:188-198 | with both filters empty the list is unchanged |
| CalendarView.FilterOrder | src/components/Calendar/Calendar.jsx:188-198 | the filtered list is an order-preserving subsequence, and filtering again changes nothing |
| CalendarView.SelectedTypeMatches | src/components/Calendar/Calendar.jsx:189-193 | a non-empty type selection keeps exactly the events whose type normalizes as the selection does |
| CalendarView.EvaluationSelection | src/components/Calendar/Calendar.jsx:189-193 | selecting "evaluación" keeps exactly the events whose type normalizes to "evaluacion" |
| CalendarView.OnDay | src/components/Calendar/Calendar.jsx:201-211 | a day's group holds exactly the events of that date |
| CalendarView.NoneOnDay | src/components/Calendar/Calendar.jsx:214-217 | a date no event carries has no events |
| CalendarView.OnDayConcat | src/components/Calendar/Calendar.jsx:201-211 | grouping keeps the list's order within a day |
| CalendarView.GroupedSnoc | src/components/Calendar/Calendar.jsx:203-209 | one more event is pushed at the end of its date's group, which it creates when missing |
| CalendarView.AddToGroup | src/components/Calendar/Calendar.jsx:204-208 | the callback creates the date's group when missing and appends the event as its last element; only that date's key is added |
| CalendarView.GroupStep | src/components/Calendar/Calendar.jsx:203-209 | one callback step takes the grouping of a prefix to the grouping of the prefix one event longer |
| CalendarView.GroupByDate | src/components/Calendar/Calendar.jsx:201-211 | the forEach loop builds exactly the grouping by date |
| CalendarView.GroupsPartition | src/components/Calendar/Calendar.jsx:201-211 | every event is in the group of its own date and in no other, and no group is empty |
| CalendarView.DayEvents | src/components/Calendar/Calendar.jsx:214-217 | a day shows exactly the events dated with its "yyyy-MM-dd" key, and none when no event has that date |
| CalendarView.Unique | src/components/Calendar/Calendar.jsx:131 | `[...new Set(xs)]` has the same members and no repetition |
| CalendarView.InsertString | src/components/Calendar/Calendar.jsx:132 | inserting into a strictly sorted list keeps it strictly sorted, with one more member |
| CalendarView.SortStrings | src/components/Calendar/Calendar.jsx:132 | `sort()` of distinct strings is strictly sorted, with the same members |
| CalendarView.Subjects | src/components/Calendar/Calendar.jsx:130-133 | the subject list is strictly sorted and holds exactly the subjects of the events |
| CalendarView.SortedIsDistinct | src/components/Calendar/Calendar.jsx:130-133 | no subject appears twice |
| CalendarView.EarliestDate | src/components/Calendar/Calendar.jsx:143-146 | the first sorted date exists exactly when some date is non-empty, and is the date of an event |
| CalendarView.EarliestIsLeast | src/components/Calendar/Calendar.jsx:143-146 | no non-empty event date sorts before it |
| CalendarView.AutoNavigate | src/components/Calendar/Calendar.jsx:137-175 | the view moves only when the address has no month, the current month has no event and the target differs, and the target month has events; the target is always the month of the earliest readable date, and the view does move whenever there is no month in the address, no event in the current month and an earliest readable date |
| CalendarView.MonthCheckRedundant | src/components/Calendar/Calendar.jsx:166-169 | when the current month has no event it always differs from the earliest event's month |
| CalendarView.AutoNavigateSettles | src/components/Calendar/Calendar.jsx:137-175 | after moving, the effect runs again and stays put |
| CalendarView.Get | src/components/Calendar/Calendar.jsx:48-49 | `params.get(key)` has a value exactly when some pair has that name |
| CalendarView.Without | src/components/Calendar/Calendar.jsx:225-233 | removing a name leaves no pair of that name and every other name as it was |
| CalendarView.SetParam | src/components/Calendar/Calendar.jsx:225-233 | after `set` the name reads as the new value and every other name as before |
| CalendarView.QueryKeys | src/components/Calendar/Calendar.jsx:220-233 | the query always holds the month, holds a filter exactly when it is selected, and holds no other name |
| CalendarView.UpdateUrlKeys | src/components/Calendar/Calendar.jsx:220-233 | the address holds the formatted month, and the type and the subject exactly when selected |
| CalendarView.ReadStateOf | src/components/Calendar/Calendar.jsx:34-56 | an address with a readable month gives that month and the two filters, "" when absent |
| CalendarView.UrlRoundTrip | src/components/Calendar/Calendar.jsx:220-233 | writing the month and filters to the address and reading them back gives the same state |
| CalendarView.UpdateUrlInStep | src/components/Calendar/Calendar.jsx:243-261 | the address updateURL writes already matches the state, so the effect's check would skip it |
| CalendarView.SyncUrlFaithful | src/components/Calendar/Calendar.jsx:243-264 | after the sync effect the address reads back as the state, and a second run changes nothing |
| CalendarView.NextMonth | src/components/Calendar/Calendar.jsx:289-295 | the next month is a month 1..12 |
| CalendarView.PreviousMonth | src/components/Calendar/Calendar.jsx:280-286 | the previous month is a month 1..12 |
| CalendarView.MonthStepsInverse | src/components/Calendar/Calendar.jsx:280-295 | a step forward and a step back return to the same month, in either order |
| CalendarView.Classify | src/components/Calendar/Calendar.jsx:86-106 | next month exactly when the move is more horizontal than vertical and more than 50 pixels leftward; previous month exactly in the same case rightward |
| CalendarView.SwipeReversal | src/components/Calendar/Calendar.jsx:93-105 | the same move in the other direction turns the month the other way |
| CalendarView.VerticalMoveIgnored | src/components/Calendar/Calendar.jsx:93-96 | a move at least as vertical as horizontal never turns the month |
| CalendarView.CalendarState.constructor | src/components/Calendar/Calendar.jsx:58-69 | the first state is the one the address describes, with no touch recorded |
| CalendarView.CalendarState.TouchStart | src/components/Calendar/Calendar.jsx:74-79 | the end point is cleared and the start point recorded; the view is unchanged |
| CalendarView.CalendarState.TouchMove | src/components/Calendar/Calendar.jsx:81-84 | the latest point becomes the end point; the start point and the view are unchanged |
| CalendarView.CalendarState.GoToNextMonth | src/components/Calendar/Calendar.jsx:289-295 | the month advances by one; nothing else changes |
| CalendarView.CalendarState.GoToPreviousMonth | src/components/Calendar/Calendar.jsx:280-286 | the month goes back by one; nothing else changes |
| CalendarView.CalendarState.TouchEnd | src/components/Calendar/Calendar.jsx:86-113 | with a coordinate missing or 0 nothing happens; otherwise the classified swipe turns the month and the four coordinates are cleared |
| CalendarView.CalendarState.ChangeType | src/components/Calendar/Calendar.jsx:298-300 | only the type selection changes |
| CalendarView.CalendarState.ChangeSubject | src/components/Calendar/Calendar.jsx:302-304 | only the subject selection changes |
| CalendarView.CalendarState.ClearFilters | src/components/Calendar/Calendar.jsx:306-309 | both selections become "" and the filter then lets every event through; the month is unchanged |
| CalendarView.CalendarState.AutoNavigateEffect | src/components/Calendar/Calendar.jsx:137-175 | the month becomes the auto-navigation target when there is one, and is unchanged otherwise |
| ListView.EventColorInList | src/components/Calendar/ListView.jsx:27-40 | the list colours every type exactly as the day cell does |
| ListView.FormatTypeInList | src/components/Calendar/ListView.jsx:43-56 | the list labels every type exactly as the day cell does |
| ListView.UpcomingIsNotBefore | src/components/Calendar/ListView.jsx:63-71 | an event is upcoming exactly when its date reads as a day that is not before today |
| ListView.ProcessedEvents | src/components/Calendar/ListView.jsx:59-86 | the list holds exactly the upcoming events, as a permutation of them, ordered by day in the chosen direction |
| ListView.ProcessedEventsOrdered | src/components/Calendar/ListView.jsx:74-83 | every two listed events are in day order, ascending or descending as chosen |
| ListView.ProcessedEventsStable | src/components/Calendar/ListView.jsx:74-83 | events of the same day keep their input order in either direction |
| ListView.RelativeDateInfo | src/components/Calendar/ListView.jsx:117-130 | there is a badge exactly when the date reads as today or a later day |
| ListView.BadgeForEveryListedEvent | src/components/Calendar/ListView.jsx:185-186 | every listed event gets a badge |
| ListView.TodayAndTomorrow | src/components/Calendar/ListView.jsx:125-127 | today reads "Hoy" in blue and tomorrow "Mañana" in yellow |
| ListView.BadgeDistance | src/components/Calendar/ListView.jsx:128-129 | two or more days ahead reads "En n días" with n the distance; green exactly up to 7 days, grey beyond |
| ListView.CountLabelReadsBack | src/components/Calendar/ListView.jsx:153-154 | the header reads back the count and says "evento próximo" exactly when there is one |
| ListView.EmptyHint | src/components/Calendar/ListView.jsx:140-142 | the hint asks to adjust the filters exactly when a filter is active |
| ListView.Flip | src/components/Calendar/ListView.jsx:157 | the sort button always changes the direction |
| ListView.FlipTwice | src/components/Calendar/ListView.jsx:157 | two presses restore the direction |
| ListView.FlipReversesKeys | src/components/Calendar/ListView.jsx:78-82 | reversing the direction reverses the comparison of every two readable dates |
| ListView.ListPanel.constructor | src/components/Calendar/ListView.jsx:13-14 | the list starts ascending with nothing expanded |
| ListView.ListPanel.ToggleSort | src/components/Calendar/ListView.jsx:157 | the direction flips and the expanded event stays |
| ListView.ListPanel.ToggleExpanded | src/components/Calendar/ListView.jsx:193 | clicking an event opens it, or closes it when it is the open one |
| DayCell.Click | src/components/Calendar/DayCell.jsx:62-66 | after a click the modal is open exactly when it was open or the day has events |
| DayCell.Close | src/components/Calendar/DayCell.jsx:126 | closing always leaves the modal closed |
| DayCell.Run | src/components/Calendar/DayCell.jsx:16 | from a closed modal, any sequence of clicks and closes leaves it open exactly when the day has events and the last action was a click |
| DayCell.CountLabel | src/components/Calendar/DayCell.jsx:115-119 | the count label is shown exactly when the day has events |
| DayCell.CountLabelReadsBack | src/components/Calendar/DayCell.jsx:115-119 | the label reads back the number of events and says "evento" exactly when there is one |
| Fixture.FixtureShape | src/data/events.js:5-61 | the fallback list has exactly seven events, with these dates |
| Fixture.FixtureDatesReadable | src/data/events.js:3 | every date has the shape yyyy-MM-dd and names a real calendar day |
| Fixture.FixtureTypes | src/data/events.js:3 | every type is "evaluación", "tp" or "tarea", and each gets a known label and a colour other than grey |
| Fixture.FixtureInDateOrder | src/data/events.js:7-54 | the dates never decrease along the list |
| Fixture.FixtureGroups | src/data/events.js:38-51 | grouping gives six days, and "2025-02-03" holds "TP Base de Datos" then "Examen Base de Datos" |
| Fixture.GroupsOfDates | src/data/events.js:37-52 | seven events on six days, the fifth and sixth sharing theirs, make six groups, the shared day holding those two in order |
| Fixture.FixtureSubjects | src/data/events.js:10-57 | the list has six distinct subjects, "Base de Datos" being shared |
| EventsHook.FallbackError | src/hooks/useGoogleSheetEvents.js:32 | the error shown is the failure's message between a fixed opening and closing, from which it can be read back |
| EventsHook.FallbackErrorNamesCause | src/hooks/useGoogleSheetEvents.js:32 | two failures show the same error exactly when their messages agree |
| EventsHook.EventsState.constructor | src/hooks/useGoogleSheetEvents.js:11-14 | the first state: no events, loading, no error, no fallback |
| EventsHook.EventsState.Begin | src/hooks/useGoogleSheetEvents.js:18-20 | a load starts loading and clears the error and the fallback flag, keeping the events |
| EventsHook.EventsState.Settle | src/hooks/useGoogleSheetEvents.js:25-34 | success replaces the events with the fetched ones; failure replaces them with the fixed list, sets the fallback flag and the error; loading ends either way |
| EventsHook.EventsState.FetchEvents | src/hooks/useGoogleSheetEvents.js:16-37 | one load or refetch leaves a state set by that load's responses alone, never merged with earlier events, with loading ended, events present, and the fallback in use exactly when an error is shown |

## Left out

- The network: `fetch`, `blob()`/`text()` and the no-store cache option are left out, and so is the cache-busting timestamp. The answers are an input sequence, so the addresses themselves are not modelled.
- The general JavaScript `Date` parse of an unrecognised date is a function parameter `engine`. The `new Date(...)` validity check after normalization is a Gregorian validity check on the "yyyy-MM-dd" text: engines disagree on days such as 2025-02-30.
- date-fns `parse` and `format` are modelled only for the "yyyy-MM-dd" and "yyyy-MM" patterns. Lenient parsing of other shapes is not modelled, nor are locale formatting and the month grid (`startOfWeek`, `eachDayOfInterval`).
- The current date is a month (`YearMonth`). The day-of-month overflow of `setMonth` (31 January plus one month) is not modelled.
- The list's millisecond arithmetic `Math.ceil((eventDay - today) / 86400000)` is an exact difference of day numbers. The effect of daylight-saving changes on that quotient is not modelled.
- Touch coordinates are integers; browsers report floating-point pixels.
- The text functions cover ASCII plus the Spanish accented letters and ñ. Astral characters, UTF-16 surrogates and other scripts are not modelled.
- Row objects are insertion-ordered key lists. JavaScript orders integer-like keys ("0", "1") first, and treats "__proto__" and the inherited names (such as "constructor") specially, both as column headers and as date keys of the grouping. None of this is modelled.
- URLSearchParams is a list of name/value pairs. Its percent-encoding and serialization, `window.history`, the popstate listener, the clipboard and `setTimeout` are browser I/O and are left out.
- Overlapping refetches run concurrently in the source. The hook's load is modelled as one atomic `FetchEvents`.
- A failing `response.blob()` or `blob.text()` is caught like an exception of `fetch`: the model's `Threw` records its message and the loop moves on, keeping an earlier ok body. The error object itself is reduced to its message.
- Events are records of five strings. A missing (`undefined`) field cannot be represented; an absent cell reads as "".
- The earliest date is `sort()[0]` in the source; the model takes the least date under the same order.
- React rendering, CSS classes other than the type colours and badges, and the presentational components are not part of this model.
- Dates.FormatParseMonth: proved for years 0 to 9999, the years "yyyy" writes with exactly four digits.
- CalendarView.UrlRoundTrip: proved for years 0 to 9999 only, for the same reason.
- CalendarView.SyncUrlFaithful: proved for years 0 to 9999 only, for the same reason.
- CalendarView.EventsForDay: defined for years 0 to 9999, the range of the "yyyy-MM-dd" key.
- ListView.TodayAndTomorrow: stated for years 0 to 9998, so that tomorrow still has a four-digit year.

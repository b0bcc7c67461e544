# Cape May vacation planner: a Dafny model of its string interpreters

The repository plans a week in Cape May (August 17 to 23, 2025) from one
activities table. Two Python scripts and two web front ends read that table:

- `create_calendar.py` turns each August activity into a calendar event. The
  `date_window` column gives the start day: the first day of a list, the first
  day of a range, or a single day. The `typical_time` column gives a start hour
  with a fixed two-hour duration, or makes the event all-day. A row that cannot
  be read is reported and skipped; the other rows still become events.
- `vacation_cape_may/create_budget.py` keeps the activities whose cost mentions a
  dollar sign and reads the amount after it. It builds a workbook with three
  sheets: the priced activities, a seven-day skeleton, and a summary of
  spreadsheet formulas over the other two.
- `app/page.tsx` (the dashboard) and `vacation_cape_may/public/script.js` (the
  static page) both parse the CSV text. Both pick the primary and backup
  activities for a day of the forecast, and both show weather advisories as
  badges.

The model is split into these modules:

- `Text` holds the string operations the sources are written with: Python's
  `replace`, `split`, `strip` and `int()`, and JavaScript's `trim`, `split`,
  `replace` with a string pattern, and `toLowerCase`.
- `Cells` holds a table cell as pandas reads it from a column of text (object
  dtype). An empty or NA-marker field ("NA", "N/A", "null", "nan", "None" and
  the like) is NaN; any other field is text. Columns that pandas would read as
  numbers are not modelled (see "## Left out").
- `Calendar`, `Budget`, `Dashboard` and `Planner` model the four core files,
  in that order.

`datetime.strptime` is modelled only for the two formats the calendar uses. It
follows the regular expression Python builds for them:

- the day alternatives are tried in Python's order;
- the format's space becomes a greedy run of whitespace;
- `%p` matches without regard to case;
- the first match is taken, and any text left after it is an error.

The loop of `create_calendar` and the sheet-building `append` loops of
`create_budget_tracker` are methods with loops. Each is proved against the
functions that specify one row. The front-end helpers are functions, as they
are `filter`/`reduce` expressions in the source.

Three behaviours of the code are easy to misread:

- An empty `typical_time` is NaN to pandas. So `'pm' in row['typical_time']`
  raises, and the row fails; it never becomes an all-day event
  (`Calendar.EmptyTimeFails`).
- A window such as "20-22" has no "Aug", so the row is skipped
  (`Calendar.MuseumSkipped`).
- With the extraction pattern as written, "$20" gets no `est_cost`; with the
  marker "$" it gets 20 (see Findings).

## Model

| member | source | states |
|---|---|---|
| Calendar.CreateCalendar | create_calendar.py:5-45 | A missing input file gives no calendar and only the "not found" report. Otherwise the calendar holds exactly the events of the rows that interpret, in row order. Every failing row is reported in row order. |
| Calendar.Interpret | create_calendar.py:15-40 | No contract of its own; specified by Calendar.InterpretSound, Calendar.TimedAugustRow, Calendar.AllDayAugustRow and Calendar.EmptyTimeFails. |
| Calendar.StartDay | create_calendar.py:22-28 | No contract of its own; specified by Calendar.ListStartsAtFirstItem, Calendar.RangeStartsAtLowerBound and Calendar.AugustNumberedDay. |
| Calendar.ParseDate | create_calendar.py:38 | No contract of its own; specified by Calendar.DateRoundTrip and Calendar.ParseDateSound. |
| Calendar.ParseDateTime | create_calendar.py:33 | No contract of its own; specified by Calendar.DateTimeRoundTrip and Calendar.ParseDateTimeSound. |
| Calendar.EventsTrace | create_calendar.py:14-42 | An event is in the calendar iff some row interprets to it. |
| Calendar.EventSource | create_calendar.py:14-42 | Every event in the calendar names a row that interprets to exactly that event. |
| Calendar.EventOfRow | create_calendar.py:14-42 | Every row that interprets puts its event in the calendar. |
| Calendar.EventsAppend | create_calendar.py:14-45 | Rows do not affect each other. The events of two batches of rows are those of each batch, concatenated. So a failing row never stops later rows. |
| Calendar.FailuresAppend | create_calendar.py:14-45 | Likewise the failure lines of two batches are those of each batch, concatenated, in row order. |
| Calendar.EveryAugustRowAccounted | create_calendar.py:14-45 | Events plus reports are as many as the rows mentioning "Aug". Every August row becomes an event or a report, and no other row does. |
| Calendar.InterpretSound | create_calendar.py:15-40 | A row is skipped iff its date window lacks "Aug". An event keeps the row's name and address. It is timed iff the typical time contains "am" or "pm". Its day is 1..31. A timed start has an hour below 24 and lasts 2 hours. |
| Calendar.MuseumSkipped | create_calendar.py:15 | The window "20-22" gives no event. |
| Calendar.ListStartsAtFirstItem | create_calendar.py:22-24 | With a comma in the window, the start day is the first comma-separated item of the window with every "Aug" and every space removed. |
| Calendar.RangeStartsAtLowerBound | create_calendar.py:25-26 | Without a comma, the start day of "a-t" is the stripped, "Aug"-free text before the first dash. It is what "a" alone gives, whatever follows the dash. |
| Calendar.AugustNumberedDay | create_calendar.py:27-28 | "Aug D" is an August window whose start day is the text of D. |
| Calendar.To24 | create_calendar.py:33 | The 24-hour hour is below 24 and agrees with the 12-hour one modulo 12. It is at least 12 iff the time is pm (12am is 0, 12pm is 12). |
| Calendar.MatchTimedSound | create_calendar.py:33 | A match of "%d %I%p" gives a day in 1..31 and an hour in 1..12, within the text. |
| Calendar.SpacesReadTimed | create_calendar.py:33 | A fitting day alternative, then a match of `\s+` and `%I%p`, has the timed shape: day text, whitespace, hour text, am/pm. |
| Calendar.MatchTimedReads | create_calendar.py:33 | The text a match of "%d %I%p" consumed is a `%d` alternative naming the day, at least one whitespace character, a `%I` alternative naming the hour, and "am" or "pm". |
| Calendar.MatchHourSound | create_calendar.py:33 | A match of "%I%p" keeps the day it was given and reads an hour in 1..12. It ends past its start, within the text. |
| Calendar.HourReadsHere | create_calendar.py:33 | An hour alternative that fits, followed by "am" or "pm" in any case, reads as `%I%p` with the hour it names. |
| Calendar.MatchHourReads | create_calendar.py:33 | The text a match of `%I%p` consumed is a `%I` alternative naming the hour, then "am" or "pm" in any case. The match ends right after it. |
| Calendar.MatchSpacesSound | create_calendar.py:33 | However many spaces the greedy `\s+` takes, at least one, the clock read after them keeps the day and has an hour in 1..12. It ends past the first whitespace character, within the text. |
| Calendar.MatchSpacesReads | create_calendar.py:33 | The hour that the greedy `\s+` lets match starts inside the run of spaces tried, and `%I%p` matches there with the same clock. |
| Calendar.SpaceRunSpaces | create_calendar.py:33 | Every character of the run that the greedy `\s+` starts from is whitespace. |
| Calendar.HourMatches | create_calendar.py:33 | An hour 1..12 printed as a number and followed by "am" or "pm" matches `%I%p` as that hour. |
| Calendar.FirstFitFirst | create_calendar.py:38 | For "%d" alone, the first day alternative that fits, in the regular expression's order, decides the length matched. |
| Calendar.MatchTimedFirst | create_calendar.py:33 | The first day alternative that fits, and lets the rest of the pattern match, decides the match. |
| Calendar.MatchHourFirst | create_calendar.py:33 | The first hour alternative that fits and is followed by a meridiem decides the hour read. |
| Calendar.TimedMatches | create_calendar.py:33 | "D Hm" followed by any text matches the timed pattern up to the meridiem, as day D and hour H. |
| Calendar.DayMatches | create_calendar.py:33 | A day printed as a number, one space, then a matching `%I%p`: the whole pattern matches with that day. |
| Calendar.DateTimeRoundTrip | create_calendar.py:31-35 | "D Hpm" / "D Ham", for D in 1..31 and H in 1..12, reads back as day D at hour To24(H), lasting 2 hours. |
| Calendar.DateRoundTrip | create_calendar.py:37-38 | A day 1..31 printed as a number reads back as that all-day date. |
| Calendar.ParseDateSound | create_calendar.py:37-38 | An accepted all-day date has one or two characters (digits, or a space then a digit) naming a day in 1..31. Anything else fails. |
| Calendar.ParseDateTimeSound | create_calendar.py:32-35 | An accepted timed start is a day in 1..31 at an hour below 24, with the 2-hour duration. Its text is exactly a `%d` day, whitespace, a `%I` hour and am/pm, with nothing after; the hour is the 12-hour one converted by To24. |
| Calendar.EmptyTimeFails | create_calendar.py:30 | A NaN typical time makes an August row fail with a TypeError. It does not give an all-day event. |
| Calendar.EndTimeIgnored | create_calendar.py:30-35 | Two rows whose typical times share the text before the dash, and whose start says "am" or "pm", interpret alike. Once the start says am or pm, the end never matters. |
| Calendar.TimedAugustRow | create_calendar.py:15-35 | "Aug D" at "Hpm-..." gives the event on day D at To24(H) for 2 hours, with the row's name and address. |
| Calendar.AllDayAugustRow | create_calendar.py:36-40 | "Aug D" with a typical time lacking "am"/"pm" gives the all-day event on day D. |
| Calendar.SpacedTimeFails | create_calendar.py:31-33 | "Hpm -..." keeps the space before the dash in the start time. strptime leaves it unconverted, so the row fails. |
| Budget.Kept | vacation_cape_may/create_budget.py:21 | A row is kept iff it is a row of the input whose cost is text containing "$". A NaN cost is never kept. |
| Budget.KeptAppend | vacation_cape_may/create_budget.py:21 | Filtering distributes over concatenation, so kept rows stay in input order. |
| Budget.LeadingDigits | vacation_cape_may/create_budget.py:22 | The result is the maximal run of digits that starts the text. |
| Budget.Extract | vacation_cape_may/create_budget.py:22 | No contract of its own; specified by Budget.ExtractFromSpec, Budget.ExtractLeftmost and Budget.ExtractNone. |
| Budget.ExtractFromSpec | vacation_cape_may/create_budget.py:22 | The amount is missing iff no marker is followed by a digit. Otherwise it is the value of the whole digit run after the leftmost such marker. |
| Budget.ExtractLeftmost | vacation_cape_may/create_budget.py:22 | When the first marker followed by a digit is at i, the amount is the value of the digit run after i. |
| Budget.ExtractNone | vacation_cape_may/create_budget.py:22 | With no marker followed by a digit, the amount is missing (NaN), not zero. |
| Budget.AmountPrinted | vacation_cape_may/create_budget.py:22 | Text without "$", then "$", then a number, then a non-digit, gives that number. So "$10-15" gives 10. |
| Budget.NoAmountMissing | vacation_cape_may/create_budget.py:22 | A cost where no "$" is followed by a digit has a missing amount, not 0. |
| Budget.AsWrittenAmountMissing | vacation_cape_may/create_budget.py:22 | With the marker as the pattern's text reads, a cost without a backslash never gives an amount. |
| Budget.AsWrittenKeptWithoutAmount | vacation_cape_may/create_budget.py:21-22 | "$K" passes the filter. With the marker as written, no amount is extracted from it; with "$", K is. |
| Budget.AppendActivities | vacation_cape_may/create_budget.py:23-28 | The sheet is the header [name, est_cost, count, notes], then one line per kept row in order. Each line holds the name, the amount (blank when missing), 1 and "". |
| Budget.AppendDaily | vacation_cape_may/create_budget.py:32-34 | The daily sheet is its header, then exactly 7 lines. Line k is dated 2025-08-(16+k) with 0, 0, 0. |
| Budget.DailyDatesAreAugustDays | vacation_cape_may/create_budget.py:33-34 | Each daily date is "2025-08-" followed by a day that the calendar's date parser reads back as August 17..23. |
| Budget.AppendSummary | vacation_cape_may/create_budget.py:38-44 | The summary sheet is the header and the six category, total, and per-head lines, in order. |
| Budget.CreateBudgetTracker | vacation_cape_may/create_budget.py:5-47 | A missing input file gives no workbook. Otherwise the workbook has the sheets activities, daily and summary, with the contents above. Amounts are read after "$", the corrected half of the Findings row for create_budget.py:22; with the pattern as written every est_cost of a cost without a backslash is blank (Budget.AsWrittenAmountMissing). |
| Budget.CategoryTotalsReadTheirColumns | vacation_cape_may/create_budget.py:39-41 | The meals and misc totals sum the "meals" and "misc" columns of the daily sheet over exactly its seven day rows. The activities total sums the "est_cost" column from the first activity. It reaches the last activity iff at most 99 are kept. |
| Budget.GrandTotalSumsCategories | vacation_cape_may/create_budget.py:42 | The grand total sums the "total" column of its own sheet over exactly the rows labelled "Total ...". |
| Budget.PerHeadDividesGrandTotal | vacation_cape_may/create_budget.py:43-44 | Per Adult and Per Kid divide the grand total's cell. Each divisor (6 and 3) is the head count that its own label states. |
| Budget.ActivitiesTotalRenders | vacation_cape_may/create_budget.py:39 | The activities total renders to `=SUM(activities!B2:B100)`. |
| Budget.DailyTotalsRender | vacation_cape_may/create_budget.py:40-41 | The meals and misc totals render to `=SUM(daily!C2:C8)` and `=SUM(daily!D2:D8)`. |
| Budget.GrandTotalRenders | vacation_cape_may/create_budget.py:42-44 | The grand total renders to `=SUM(B2:B4)`, and the per-head shares to `=B5/6` and `=B5/3`. |
| Dashboard.StripQuotesRoundTrip | app/page.tsx:71 | Stripping quotes from `"v"` gives v, even when v starts or ends with a quote. |
| Dashboard.StripQuotesUnquoted | app/page.tsx:71 | A value with no quote at either end is unchanged. |
| Dashboard.RecordOf | app/page.tsx:69-73 | No contract of its own; specified by Dashboard.RecordKeys and Dashboard.RecordValue. |
| Dashboard.ParseCsvWith | app/page.tsx:65-75 | No contract of its own; specified by Dashboard.OneRecordPerLine. |
| Dashboard.HeaderIsKey | app/page.tsx:70-73 | Every trimmed header is a key of the record. |
| Dashboard.KeyHeader | app/page.tsx:70-73 | Every key of the record is some trimmed header. |
| Dashboard.RecordKeys | app/page.tsx:70-73 | The keys of a record are exactly the trimmed headers. |
| Dashboard.RecordValue | app/page.tsx:70-73 | A header's value is its own segment, trimmed and unquoted ("" past the last segment), unless a later header with the same trimmed name overwrites it. |
| Dashboard.ExtraSegmentsIgnored | app/page.tsx:71 | Segments beyond the header count do not change the record. |
| Dashboard.MissingSegmentsEmpty | app/page.tsx:71 | A short line reads as if its missing segments were empty. |
| Dashboard.SelectForDay | app/page.tsx:84-88 | No contract of its own; specified by Dashboard.SelectForDayMembers and Dashboard.SelectForDayAppend. |
| Dashboard.ActivitiesForDay | app/page.tsx:82-89 | No contract of its own; specified by Dashboard.PlansDisjoint. |
| Dashboard.OneRecordPerLine | app/page.tsx:65-75 | The trimmed text splits into newline-free lines that join back into it. The result has one record per line after the header line, read against the header line. |
| Dashboard.SelectForDayMembers | app/page.tsx:82-89 | The filter fails iff some activity lacks date_window. Otherwise an activity is chosen iff it is in the input, its window contains the day number or "Aug 17-23", and rain_safe is exactly "yes" (backup) or "no" (primary). |
| Dashboard.SelectForDayAppend | app/page.tsx:84 | Selection distributes over concatenation, so chosen activities keep their order. |
| Dashboard.PlansDisjoint | app/page.tsx:82-89 | The primary and backup lists of a day share no activity. An activity whose rain_safe is missing or neither "yes" nor "no" is in neither. |
| Dashboard.BadgeColor | app/page.tsx:91-95 | Red iff the advisory contains "HIGH". Orange iff it contains "MODERATE" but not "HIGH". Yellow iff it contains neither. |
| Dashboard.BadgeNeverDowngrades | app/page.tsx:91-95 | Adding text around an advisory never lowers its badge's severity. |
| Dashboard.AdvisoryLabel | app/page.tsx:144 | No contract of its own; specified by Dashboard.LabelFirstUnderscore and Dashboard.LabelWithoutUnderscore. |
| Dashboard.LabelFirstUnderscore | app/page.tsx:144 | Only the first underscore of an advisory becomes a space. Later ones stay. |
| Dashboard.LabelWithoutUnderscore | app/page.tsx:181 | An advisory without underscore is its own label. |
| Planner.FieldsAgree | vacation_cape_may/public/script.js:33-36 | When a line has a segment for every header, the script's record equals the dashboard's. |
| Planner.ParseCsv | vacation_cape_may/public/script.js:28-38 | No contract of its own; specified by Planner.ParseCsvAgrees and Planner.AsWrittenSeparatorNoRecords. |
| Planner.RecordsFrom | vacation_cape_may/public/script.js:31-37 | Reading succeeds iff no line after the header has fewer segments than headers. It then gives one record per line. Otherwise it names the first short line: every earlier line is long enough. |
| Planner.ParseCsvAgrees | vacation_cape_may/public/script.js:28-38 | For the same separator, the script fails iff some line is short. Otherwise it reads exactly the dashboard's records. |
| Planner.AsWrittenSeparatorNoRecords | vacation_cape_may/public/script.js:29 | With the separator as written, a text without backslash gives no activity. |
| Planner.Plan | vacation_cape_may/public/script.js:61-62 | No contract of its own; specified by Planner.PlanMembers and Planner.PlanAppend. |
| Planner.PrimaryPlan | vacation_cape_may/public/script.js:61 | No contract of its own; specified by Planner.PlansPartitionDay and Planner.PlansDisjoint. |
| Planner.BackupPlan | vacation_cape_may/public/script.js:62 | No contract of its own; specified by Planner.PlansPartitionDay and Planner.PlansDisjoint. |
| Planner.PlanMembers | vacation_cape_may/public/script.js:61-62 | A plan fails iff an activity with the plan's rain_safe truthiness lacks date_window. Otherwise an activity is in it iff it has that truthiness and its window contains the day number. |
| Planner.PlansPartitionDay | vacation_cape_may/public/script.js:61-62 | Both plans are built. Their multiset union is exactly the activities whose window contains the day number. |
| Planner.PlansDisjoint | vacation_cape_may/public/script.js:61-62 | No activity is in both plans. |
| Planner.PlanAppend | vacation_cape_may/public/script.js:61-62 | Plans distribute over concatenation, so each keeps input order. |
| Planner.RainSafeNoDiverges | vacation_cape_may/public/script.js:61-62 | rain_safe "no" puts an activity of the day in the script's backup plan, while the dashboard puts it in its primary plan. |
| Planner.RiskClass | vacation_cape_may/public/script.js:45 | No contract of its own; specified by Planner.RiskClassAndLabel and Planner.RiskClassWhole. |
| Planner.RiskClassAndLabel | vacation_cape_may/public/script.js:45-46 | For P_Q with P free of underscores, the class is P lower-cased and the label is "P Q". |
| Planner.RiskClassWhole | vacation_cape_may/public/script.js:45-46 | Without an underscore, the class is the whole advisory lower-cased and the label is the advisory. |
| Text.IndexOf | create_calendar.py:15 | The result is the first index where the pattern occurs, or none iff it occurs nowhere (`in`, `includes`). |
| Text.ReplaceAllDeletes | create_calendar.py:23 | Deleting every occurrence of a character leaves none. |
| Text.JoinSplit | create_calendar.py:23 | Joining the pieces of a split with its separator gives back the text. |
| Text.SplitPiecesFree | create_calendar.py:23 | No piece of a split contains the separator. |
| Text.SplitFirstPiece | create_calendar.py:26 | The first piece is the text before the first separator. |
| Text.TrimSlice | create_calendar.py:26 | Stripping keeps one contiguous slice. Everything dropped is whitespace, and the slice neither starts nor ends with it. |
| Text.ReplaceFirstAt | app/page.tsx:144 | A string-pattern `replace` changes the first occurrence only and keeps the rest. |
| Text.NatToStringRoundTrip | create_calendar.py:32 | A number printed in decimal reads back as itself. |

## Left out

- File reading (pandas `read_csv`), the ics library, openpyxl, writing the
  `.ics` and `.xlsx` files, and the printed messages. The model's input is the
  sequence of rows, or None for a missing file. Its output stops at the event
  values, the reports and the sheet contents.
- Calendar.CreateCalendar: `c.events` is a set, so the file's event order is
  the library's, and depending on the ics version two identical events may
  collapse into one. The model keeps every event in row order.
- Calendar.MatchTimed: `\d` and `\s` match only ASCII digits and Python's
  whitespace characters. Non-ASCII Unicode digits, which Python would accept
  in `[12]\d`, are not modelled.
- Budget.LeadingDigits: likewise `(\d+)` is read over ASCII digits only. The
  Unicode digits that Python's `\d` and `astype(float)` also accept are not
  modelled.
- Budget.Kept: the model assumes pandas reads `cost_estimate` as a text
  (object) column. If no field of it holds text (all empty, or all bare
  numbers), pandas gives it a numeric dtype, `.str.contains` raises
  AttributeError and no workbook is saved; the model instead keeps no row and
  still builds the workbook.
- Calendar.Interpret: the model assumes pandas reads `typical_time` (and
  `date_window`) as text columns. If every `typical_time` is a bare number, the
  column is numeric, `'pm' in row['typical_time']` raises TypeError and every
  August row is reported as failed; the model reads such a value as text and
  gives an all-day event.
- Budget.CreateBudgetTracker: the workbook's amounts are read after "$", the
  evidently intended marker. As written, the pattern at
  vacation_cape_may/create_budget.py:22 needs a backslash before "$", so every
  cost without one gets a blank est_cost
  (Budget.AsWrittenAmountMissing, Budget.AsWrittenKeptWithoutAmount; see
  Findings).
- Budget.ExtractFromSpec: `astype(float)` gives a float. The model keeps the exact
  natural number, so precision is not modelled for very long digit runs.
- Budget.AppendActivities: a NaN name is written as an empty cell; how
  openpyxl stores NaN is not modelled.
- Spreadsheet formulas are not evaluated. They are structured values whose
  rendering is proved to be the written text.
- Planner.RiskClass: `toLowerCase` is modelled for ASCII letters only.
- Dashboard.RecordOf: a header named `__proto__` is a special key of a
  JavaScript object. Any other header is an ordinary map key in the model.
- React state and effects, `fetch`, DOM updates, HTML templates,
  `toLocaleString`, `encodeURIComponent`, `ActivityCard`, `getTodayWeather`
  and the hard-coded date lookup of `updateTodayPanel` are UI or I/O.
- In `vacation_cape_may/public/script.js`, a failed `parseCSV` or plan filter
  ends the page's data load in the `catch` with an error message. In
  `app/page.tsx`, `parseCSV` cannot fail, and `getActivitiesForDay` runs during
  rendering, outside the `try` of `fetchData`, so its failure is a render
  error. The model stops at the error value in both.

## Findings

| source | as written | input that shows it | evidently intended | confidence | as-written member | corrected member |
|---|---|---|---|---|---|---|
| vacation_cape_may/create_budget.py:22 | the pattern `\\\$(\d+)` requires a backslash before the dollar sign | cost "$25" passes the filter at :21 but gets no est_cost | the amount right after the dollar sign that the filter looks for | low, not executed: the doubled backslash may be an escaping slip, not the intended pattern | Budget.AsWrittenKeptWithoutAmount | Budget.ExtractLeftmost |
| vacation_cape_may/public/script.js:29 | lines are split on a backslash followed by "n" | a CSV with real newlines and no backslash gives no activities | split on the newline character, as app/page.tsx:66 does | low, not executed: the doubled backslash may be an escaping slip, not the intended pattern | Planner.AsWrittenSeparatorNoRecords | Planner.ParseCsvAgrees |

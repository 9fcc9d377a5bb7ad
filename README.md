# Maintenance due-status evaluator

This project models the query endpoint of a single-car maintenance log
(`functions/api/query.js`). The endpoint reads the purchase date and the
service log. For every rule of a fixed catalog it works out whether the
item is due and explains why.

- **Catalog** (`maintenanceRules`): nine items in a fixed order. Seven are
  renewed every few months or years, two every so many kilometres.
- **`parseDate`**: keeps the text before the first `T`, splits it at `-`,
  converts each field with `Number` and builds `new Date(year, month - 1, day)`.
- **Rule loop**:
  - A time rule takes the latest of the purchase date and the dates of the
    records carrying its name. It advances that date with
    `setMonth`/`setFullYear` and counts the days left until today.
  - A mileage rule takes the highest mileage of its records, or 0. It adds
    the rule's distance and subtracts the current mileage.
  - Every rule writes one debug line, with the remainder clamped at 0.
  - A rule with nothing left writes a suggestion.
  - Without a purchase date the endpoint answers with an error. A date it
    cannot evaluate turns the answer into an internal error.

The model has three modules:

- `Calendar` (`calendar.dfy`): the arithmetic of the ECMAScript `Date` at
  local midnight.
  - Dates are proleptic Gregorian triples.
  - A date's time value is a whole number of days.
  - `MakeDate` is ECMAScript MakeDay: an out-of-range month or day rolls
    into the neighbouring months and is never clamped.
- `DateText` (`date_text.dfy`): `parseDate` on strings.
- `Maintenance` (`maintenance.dfy`): the catalog, one function per step
  of the rule loop, and the report.
  - The loop itself is the method `EvaluateRules`. It appends to the three
    output lists as the source does and is proved equal to the functional
    report `ReportFor`.
  - `Evaluate` is the endpoint body without its database and HTTP calls.

## Model

| member | source | states |
|---|---|---|
| Calendar.DaysInMonth | functions/api/query.js:63-68 | month lengths are 28 to 31 days, and 29 exactly for February of a leap year |
| Calendar.DayFromYearStep | functions/api/query.js:70-71 | consecutive New Year's days are exactly one year's length (365 or 366 days) apart in time value |
| Calendar.MakeDate | functions/api/query.js:21 | `new Date(y, m, d)` always denotes an existing day, whatever the month and day arguments |
| Calendar.RollForwardSerial | functions/api/query.js:21 | carrying surplus days into the following months keeps the time value of the day asked for |
| Calendar.RollBackSerial | functions/api/query.js:21 | carrying a day before the 1st into the preceding months keeps the time value of the day asked for |
| Calendar.MakeDateSerial | functions/api/query.js:21 | the date built has the time value of day d of the normalised month (month index taken modulo 12 with the year carried), as ECMAScript MakeDay computes it |
| Calendar.MakeDateOfValid | functions/api/query.js:21 | building a date from an existing day's own year, month and day gives that day back |
| Calendar.DayNumber | functions/api/query.js:59 | definition of a date's time value (`getTime`) in days; its meaning is stated by DayNumberOrder and DayNumberInjective, and MakeDateSerial ties it to ECMAScript MakeDay |
| Calendar.DayNumberOrder | functions/api/query.js:59 | comparing time values (`getTime`) orders valid dates chronologically, in both directions |
| Calendar.DayNumberInjective | functions/api/query.js:73 | two valid dates have equal time values exactly when they are the same date |
| Calendar.AddMonthsRollsOver | functions/api/query.js:66-67 | `setMonth(getMonth() + n)` keeps the day when the target month has it, and otherwise rolls the surplus days into the next month (or next January) |
| Calendar.AddYearsRollsOver | functions/api/query.js:64-65 | `setFullYear(getFullYear() + n)` keeps month and day, except that 29 February becomes 1 March in a common year |
| Calendar.AddMonths | functions/api/query.js:66-67 | definition of `setMonth(getMonth() + n)` through MakeDate; see AddMonthsRollsOver and AddMonthsIsLater |
| Calendar.AddYears | functions/api/query.js:64-65 | definition of `setFullYear(getFullYear() + n)` through MakeDate; see AddYearsRollsOver and AddYearsIsLater |
| Calendar.AddMonthsIsLater | functions/api/query.js:66-67 | a positive number of months gives a strictly later time value |
| Calendar.AddYearsIsLater | functions/api/query.js:64-65 | a positive number of years gives a strictly later time value |
| Calendar.HalfYearExample | functions/api/query.js:66-67 | 2020-01-01 + 6 months is 2020-07-01 |
| Calendar.MonthEndExample | functions/api/query.js:66-67 | 2020-08-31 + 6 months is 2021-03-03, not the last day of February |
| Calendar.LeapDayExample | functions/api/query.js:64-65 | 2020-02-29 + 3 years is 2023-03-01 |
| DateText.Split | functions/api/query.js:18-19 | `split` yields at least one part, and joining the parts with the separator gives the text back |
| DateText.SplitPartsFree | functions/api/query.js:18-19 | no part of a split holds the separator |
| DateText.SplitJoin | functions/api/query.js:18-19 | splitting the join of separator-free parts gives the same parts |
| DateText.SplitFirst | functions/api/query.js:18 | the first part of `split('T')` is the text before the first `T` |
| DateText.NumberOf | functions/api/query.js:19 | `Number(field)` is a number exactly when the field is a run of digits; the empty field is 0; numbers are non-negative |
| DateText.NumberOfPadded | functions/api/query.js:19 | `Number` reads a zero-padded decimal back as its value |
| DateText.FullYear | functions/api/query.js:21 | definition of the `Date` constructor's year rule (0..99 read as 1900..1999); its effect is stated by TwoDigitYearDate and ParseTwoDigitYear |
| DateText.DateOfFields | functions/api/query.js:19-21 | the result is a date exactly when there are at least three fields and the first three are digit runs (the empty field reads as 0); otherwise an invalid Date, never null |
| DateText.ParseDate | functions/api/query.js:15-22 | `parseDate` returns null exactly for the empty string |
| DateText.IsoDateFields | functions/api/query.js:18-19 | a date written YYYY-MM-DD holds no `T` and splits at `-` into its three padded fields |
| DateText.ParseFromDatePart | functions/api/query.js:15-22 | text whose part before the first `T` is the ISO text of a date with a year 100..9999 parses to that date |
| DateText.ParseIsoDate | functions/api/query.js:15-22 | YYYY-MM-DD, alone or followed by `T` and a time, parses back to the date written (years 100..9999) |
| DateText.ParseDatePart | functions/api/query.js:15-21 | text whose part before the first `T` is the ISO text of a date with year 0..9999 parses to `new Date(FullYear(year), month - 1, day)` |
| DateText.TwoDigitYearDate | functions/api/query.js:21 | `new Date(y, m - 1, d)` with a year 0..99 builds the same date 1900 years later, with 29 February rolling to 1 March when 19xx is a common year |
| DateText.ParseTwoDigitYear | functions/api/query.js:19-21 | YYYY-MM-DD with a year 0..99, alone or followed by `T` and a time, parses to the date 1900 years later (as `setFullYear` would move it: 29 February to 1 March when 19xx is a common year) |
| DateText.YearZeroLeapDayExample | functions/api/query.js:19-21 | "0000-02-29" parses to 1900-03-01 |
| Maintenance.CatalogSchedules | functions/api/query.js:2-12 | the names of the catalog's time rules and of its mileage rules, each group in the listed order |
| Maintenance.CatalogOrder | functions/api/query.js:2-12 | the catalog has nine rules: the first seven are time rules and the last two mileage rules |
| Maintenance.ItemLogs | functions/api/query.js:52 | the filter keeps at most as many records as the log has |
| Maintenance.ItemLogsMembers | functions/api/query.js:52 | an item's records are exactly the log records carrying its name |
| Maintenance.ItemLogsAppend | functions/api/query.js:52 | filtering a concatenation concatenates the filtered parts |
| Maintenance.ServiceDatesParse | functions/api/query.js:57 | each service date is its own record's parsed date |
| Maintenance.TimeBasis | functions/api/query.js:57-60 | the basis exists exactly when the purchase date and every service date are dates; it is no earlier than any of them; failure is an internal error |
| Maintenance.TimeBasisIsGiven | functions/api/query.js:57-60 | the basis is the purchase date or one of the service dates, so it is their maximum |
| Maintenance.TimeBasisIgnoresOrder | functions/api/query.js:57-60 | the basis depends only on the set of service dates, not on their order or repetitions |
| Maintenance.TimeBasisGrows | functions/api/query.js:57-60 | one more service date never moves the basis earlier |
| Maintenance.HighestMileage | functions/api/query.js:92-94 | the mileage basis is non-negative, at least every record's mileage, and 0 or one of them |
| Maintenance.HighestMileageGrows | functions/api/query.js:92-94 | one more record raises the mileage basis to its mileage or leaves it unchanged |
| Maintenance.HighestMileageIgnoresOrder | functions/api/query.js:92-94 | the mileage basis depends only on the set of records |
| Maintenance.Advance | functions/api/query.js:63-68 | definition of the due date: `setMonth` for month rules, `setFullYear` for year rules; see AdvanceIsLater and TimeAssessmentMeaning |
| Maintenance.AdvanceIsLater | functions/api/query.js:63-68 | a positive interval gives a due date strictly after the basis |
| Maintenance.Clamp | functions/api/query.js:85 | the reported remainder (line 85, and line 111 for kilometres) is 0 exactly when the signed value is at most 0, and the signed value otherwise |
| Maintenance.IsDue | functions/api/query.js:77-103 | definition of "due" (nothing remaining, line 77 for days and line 103 for kilometres); see TimeAssessmentMeaning and MileageRuleMeaning for what it means per rule type |
| Maintenance.TimeLabel | functions/api/query.js:73-75 | the basis is labelled as the purchase date exactly when it equals the purchase date, and as the last service otherwise |
| Maintenance.AssessTime | functions/api/query.js:55-87 | a time rule is assessed exactly when its basis exists, otherwise with an internal error, and yields a time assessment of its item |
| Maintenance.TimeAssessmentMeaning | functions/api/query.js:63-79 | labelled as the purchase date iff the basis is the purchase date, as the last service otherwise; due date = basis advanced by the interval, strictly later for a positive interval; days remaining = days from today to the due date; due exactly when today is not before the due date |
| Maintenance.AssessMileage | functions/api/query.js:90-113 | a mileage rule always yields a mileage assessment of its item whose remainder is the due mileage minus the current mileage |
| Maintenance.MileageRuleMeaning | functions/api/query.js:92-105 | never fails; basis is the highest matching mileage or 0; due mileage = basis + distance; "purchase (0 km)" label iff basis is 0, otherwise the last-service label carrying the basis mileage; due iff the current mileage has reached the due mileage |
| Maintenance.Assess | functions/api/query.js:50-113 | only time rules can fail, and only with an internal error; the assessment names the rule and is a time assessment exactly for time rules |
| Maintenance.TimeRuleBasis | functions/api/query.js:57-60 | the time basis is the purchase date or the parsed date of a record with the rule's name, and no such date lies after it |
| Maintenance.AssessSucceedsIff | functions/api/query.js:55-60 | a rule is assessed unless it is a time rule and the purchase date or one of its records' dates is null or not a date |
| Maintenance.AssessIgnoresLogOrder | functions/api/query.js:52-94 | a rule's assessment depends on the set of log records only |
| Maintenance.Assessments | functions/api/query.js:50-114 | the loop completes exactly when every rule is assessed, and then the i-th assessment is the i-th rule's; otherwise an internal error |
| Maintenance.EntriesFollowRules | functions/api/query.js:82-112 | exactly one debug line per rule: time lines for the time rules and mileage lines for the mileage rules, each in catalog order, by name (the lines' contents: TimeEntriesAtPositions, MileageEntriesAtPositions) |
| Maintenance.TimeEntriesAtPositions | functions/api/query.js:82-86 | the j-th time-based line reports the assessment at the j-th time position: its item, due date, basis and days remaining clamped at 0 |
| Maintenance.MileageEntriesAtPositions | functions/api/query.js:108-112 | the j-th mileage-based line reports the assessment at the j-th mileage position: its item, due mileage, basis and kilometres remaining clamped at 0 |
| Maintenance.SuggestionsAreDue | functions/api/query.js:77-105 | the j-th suggestion is that of the j-th due assessment: the due positions are exactly the positions of due assessments, strictly increasing, so there is one suggestion per due assessment, in order |
| Maintenance.ReportEntries | functions/api/query.js:43-112 | a report carries today's date, the time rules' names in order in `timeBased` and the mileage rules' names in order in `mileageBased` (the lines' contents: ReportTimeLines, ReportMileageLines) |
| Maintenance.ReportTimeLines | functions/api/query.js:82-86 | the j-th `timeBased` line belongs to the j-th time rule in catalog order, each time rule exactly once, and carries that rule's name and its assessment's due date, basis and days remaining clamped at 0 |
| Maintenance.ReportMileageLines | functions/api/query.js:108-112 | the j-th `mileageBased` line belongs to the j-th mileage rule in catalog order, each mileage rule exactly once, and carries that rule's name and its assessment's due mileage, basis and kilometres remaining clamped at 0 |
| Maintenance.ReportSuggestions | functions/api/query.js:77-105 | a report's j-th suggestion names the j-th due rule (with its basis); the due rules are exactly those whose assessment is due, taken once each in catalog order |
| Maintenance.ReportFor | functions/api/query.js:50-124 | definition of the answer for a parsed purchase date: the internal error, or the report built from the assessments; see ReportEntries, ReportTimeLines, ReportMileageLines, ReportSuggestions, ReportForFailure and ReportForSuccess |
| Maintenance.ReportForFailure | functions/api/query.js:120-124 | a rule that cannot be assessed turns the whole answer into the internal error |
| Maintenance.ReportForSuccess | functions/api/query.js:116-118 | when every rule is assessed, the answer lists their lines in catalog order |
| Maintenance.Query | functions/api/query.js:24-124 | definition of the endpoint's answer; see QueryOutcome, QueryIgnoresLogOrder and QueryIgnoresUnmatchedLog |
| Maintenance.QueryOutcome | functions/api/query.js:29-34 | the missing-purchase-date error happens exactly without a purchase date; otherwise the answer is a report exactly when every time rule finds the purchase date and its records' dates to be dates |
| Maintenance.QueryIgnoresLogOrder | functions/api/query.js:37 | the answer depends on the set of log records only, not on the order the database returns them in |
| Maintenance.QueryIgnoresUnmatchedLog | functions/api/query.js:52 | inserting a record whose name no rule carries changes nothing in the answer |
| Maintenance.PurchaseRecordIgnored | functions/api/log.js:34-37 | the purchase record ("车辆购买") written with the purchase date changes nothing in the catalog's answer |
| Maintenance.Evaluate | functions/api/query.js:24-118 | the endpoint body returns exactly the answer `Query` specifies |
| Maintenance.EvaluateRules | functions/api/query.js:50-114 | the loop, pushing into the three lists, returns exactly the report `ReportFor` specifies (the internal error as soon as a rule cannot be assessed) |

## Left out

- HTTP and storage:
  - The request body, `Response` construction and the database queries (lines 26-27, 30, 37) are not modelled.
  - The stored purchase date is an `Option<string>` (None when there is no `car_info` row).
  - The log is a sequence of records.
  - The submitted current mileage is an integer.
  - The other endpoint files are plain storage operations and are not part of this model.
- "Today" (`new Date()` with `setHours(0, 0, 0, 0)`, lines 40-41) is a parameter.
- Time zones and daylight saving time are not modelled:
  - Local midnight and UTC are taken to coincide.
  - The output holds dates and numbers instead of `toISOString` text and the formatted Chinese messages.
- Time values are whole days. The millisecond difference divided by 86400000 and rounded up with `Math.ceil` (line 71) is modelled as an integer difference of day numbers; without daylight saving time the two agree.
- Dates outside the ECMAScript time range (about ±275,000 years) are valid here; JavaScript gives an invalid Date there.
- DateText.NumberOf: it reads only the empty field and runs of decimal digits. Fields that `Number` also accepts (surrounding spaces, a sign, a fraction, an exponent, `0x` forms) count as not a number here.
- Maintenance.TimeBasis: it fails whenever the purchase date or one of the rule's service dates is null or an invalid Date. JavaScript may throw or not, depending on where the sort leaves such a value. A comparison with an invalid Date yields NaN, which the sort treats as equal. So with a valid purchase date followed by an unparseable service date (for example `maintenance_date` "2021-01-xx"), the purchase date stays first and the rule still reports, with it as basis. In V8 this holds even when a later valid service date follows, as in `[2020-01-01, invalid, 2021-06-01]`. The model treats every such case as the internal error.
- Maintenance.Evaluate: the current mileage is an integer. A missing or non-numeric `current_mileage` (NaN in JavaScript, which is never due) and non-numeric stored mileages are not modelled.
- Maintenance.TimeBasis: the in-place sort at line 59 is modelled by what the code reads from it, the first element, which is the latest date. Because two valid dates with equal time values are the same date, ties cannot change the result.
- Every catalog rule has exactly one schedule: `Schedule` is either `Every` or `EveryKm` (lines 3-11).
- `setFullYear`/`setMonth` roll surplus days forward rather than clamping to the month's end. So 29 February + 1 year is 1 March, and 31 August + 6 months is 3 March when the following February has 28 days (2 March when it has 29).
- An empty or unparseable stored purchase date makes every time rule fail. Mileage rules do not read the purchase date.

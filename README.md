# Attendify attendance core in Dafny

This project models the business logic of the Attendify attendance tracker's
backend. Employees check in and out once a day. The backend derives each
day's status (`present`, `late`, `half-day`, `absent`) and hours worked.
Managers and employees read summaries, dashboards and exports built from the
stored attendance records.

Modules (one per concern of the backend):

- `Wrappers`: `Option` and `Result`.
- `Calendar`: the local calendar arithmetic of the JavaScript `Date` constructor.
  - Proleptic Gregorian years and day numbers from 1970-01-01.
  - 0-based month indices that overflow into the neighbouring year.
  - Date 0 meaning the last day of the previous month.
  - Years 0..99 meaning 1900..1999.
  - The summary month range from the 1st at 00:00:00 to the last day at 23:59:59.
- `Schema`: the attendance record schema.
  - The status enum, with its names and validation.
  - The defaults of a new record.
  - The store as a map keyed by (user id, day), which makes the unique compound index structural.
  - The user reference data that records are joined with.
- `Recorder`: check-in, check-out and today's status.
  - Pure step functions over the store.
  - An `AttendanceStore` class whose methods update the store field in place and are proved equal to the step functions.
- `Summary`:
  - the status-count fold of `getMySummary`, `getTeamSummary` and the employee dashboard (a loop proved against counting functions);
  - selection of a month's records;
  - the history filter.
- `TeamStatus`: `getTodayStatusAll`. Every employee starts absent, then each of today's records overlays its user's entry. It is modelled as a loop over a map, proved against a pure merge.
- `Dashboard`:
  - `getEmployeeDashboard`: today's block, the monthly summary and the recent-seven window;
  - `getManagerDashboard`: present and absent counts, late arrivals, the seven-day trend loop, the department dictionary loops and the absent employees.
- `Queries`: the filters of `getAllAttendance` and the CSV rows of `exportAttendance`.
- `EmployeeId`: the successor of the last employee ID.
  - It strips the first "EMP".
  - It parses the rest with JavaScript `parseInt` semantics: whitespace, a sign, a "0x" prefix, the longest digit prefix, and NaN when there are no digits.
  - It adds one and left-pads with '0' to three characters.

**Inputs instead of I/O.** The current time is an input: the local date, hour and minute, plus the instant in milliseconds since the epoch. Records and users are sequences the database has already fetched. A record's date is the day number of its local midnight. Durations are integer milliseconds. `totalHours` is integer hundredths of an hour.

**Half-day and lateness thresholds.** A check-out becomes `half-day` when the *unrounded* duration is under four hours; the rounded `totalHours` plays no part in the test (attendanceController.js:90-96). `Recorder.HalfDayUsesUnroundedHours` shows that a duration one millisecond short of four hours is stored as 4.00 hours and is still a half-day. Lateness compares only the hour and the minute of the check-in (attendanceController.js:31-35). Seconds are not an input, so a check-in at 09:30:59 is present.

## Model

| member | source | states |
|---|---|---|
| Calendar.DaysInMonth | backend/src/controllers/attendanceController.js:143-144 | a month has between 28 and 31 days |
| Calendar.YearLength | backend/src/controllers/attendanceController.js:143-144 | consecutive January firsts are 365 or 366 days apart, as the leap rule says |
| Calendar.NextMonthStart | backend/src/controllers/attendanceController.js:144 | the first of the next month, or of January next year, follows the last day of the month |
| Calendar.MonthRangeBounds | backend/src/controllers/attendanceController.js:143-144 | the range of any month index runs from the 1st of the normalised month at 00:00:00 to its last day at 23:59:59 |
| Calendar.MonthRangeContains | backend/src/controllers/attendanceController.js:143-149 | a record dated at a day's midnight is in the range iff the day is a day of that month |
| Calendar.MonthRangeOfMonth | backend/src/controllers/attendanceController.js:119-121 | for a 1-indexed month of a year from 100 on, the range holds exactly that month's days |
| Calendar.February2024 | backend/src/controllers/attendanceController.js:143-144 | month 2 of 2024 runs from 1 Feb 00:00:00 to 29 Feb 23:59:59 |
| Calendar.MonthOverflow | backend/src/controllers/attendanceController.js:144 | month index 12 is January of the next year and index -1 is December of the previous year |
| Schema.ParseStatus | backend/src/models/Attendance.js:19-23 | a status string is accepted iff it is one of the four enum names, and it maps back to that name |
| Schema.NewRecord | backend/src/models/Attendance.js:3-27 | a record with only userId and date has no check-in or check-out, status absent and 0 hours |
| Schema.UniqueIndex | backend/src/models/Attendance.js:34-35 | in a consistent store, two stored records with the same userId and date are the same entry |
| Schema.OnDay | backend/src/controllers/dashboardController.js:95-100 | the records of one day: exactly those of the input dated that day |
| Schema.OnDayConcat | backend/src/controllers/dashboardController.js:95-100 | the day filter distributes over concatenation, so it keeps store order and every duplicate |
| Schema.OnDayOne | backend/src/controllers/dashboardController.js:95-100 | a single record is kept exactly when it is dated that day; with the concatenation lemma this fixes the result |
| Schema.FindUser | backend/src/controllers/dashboardController.js:100 | the populated user has the record's id; no user is found only when no user has that id |
| Schema.Employees | backend/src/controllers/dashboardController.js:134 | exactly the users whose role is employee |
| Schema.EmployeesConcat | backend/src/controllers/dashboardController.js:134 | the role filter distributes over concatenation, so it keeps collection order and every duplicate |
| Schema.EmployeesOne | backend/src/controllers/dashboardController.js:134 | a single user is kept exactly when an employee |
| Schema.EmployeesDistinct | backend/src/controllers/attendanceController.js:393-397 | filtering employees keeps user ids distinct |
| Recorder.CheckInStep | backend/src/controllers/attendanceController.js:10-62 | fails with "Already checked in today" iff today's record has a check-in, leaving the store unchanged; otherwise it files today's record under its key with the check-in instant and the late/present status, keeping a placeholder's other fields or creating a fresh record |
| Recorder.AttendanceStore.CheckIn | backend/src/controllers/attendanceController.js:10-62 | the in-place method returns what CheckInStep returns and leaves the store CheckInStep's store, keeping the store consistent |
| Recorder.CheckOutStep | backend/src/controllers/attendanceController.js:67-107 | "Please check in first" iff there is no record or no check-in; "Already checked out today" iff a check-out exists; the store is unchanged on failure; on success, only check-out, hours and status change, with the hours rounded to hundredths; status is half-day iff the raw duration is under 4 h or it already was; otherwise the check-in status is kept |
| Recorder.AttendanceStore.CheckOut | backend/src/controllers/attendanceController.js:67-107 | the in-place method returns what CheckOutStep returns and leaves the store CheckOutStep's store |
| Recorder.ViewOf | backend/src/controllers/attendanceController.js:190-207 | no record gives a synthesised absent view with nothing checked; otherwise checkedIn/checkedOut hold iff the times are present and the status and hours are those stored |
| Recorder.AttendanceStore.TodayStatus | backend/src/controllers/attendanceController.js:176-211 | returns ViewOf of today's entry and modifies nothing, so repeated calls agree |
| Recorder.AttendanceStore.constructor | backend/src/models/Attendance.js:34-35 | a new store is empty and satisfies the unique-key invariant |
| Recorder.LateAfterNineThirty | backend/src/controllers/attendanceController.js:33-37 | late iff the check-in minute of the day is after 09:30; 09:30 is present and 09:31 is late |
| Recorder.HundredthsClose | backend/src/controllers/attendanceController.js:99 | the stored hours are within half a hundredth of the exact duration, and rounding is symmetric in sign |
| Recorder.CheckInTwice | backend/src/controllers/attendanceController.js:25-27 | a second check-in on the same day fails and changes nothing |
| Recorder.CheckOutWithoutCheckIn | backend/src/controllers/attendanceController.js:81-83 | check-out on a day with no record is refused and changes nothing |
| Recorder.CheckOutTwice | backend/src/controllers/attendanceController.js:85-87 | after a check-out, a second check-out that day is refused and changes nothing |
| Recorder.CheckInAfterCheckOut | backend/src/controllers/attendanceController.js:25-27 | after a check-out, a check-in that day is refused |
| Recorder.HalfHourIsHalfDay | backend/src/controllers/attendanceController.js:89-100 | in at 09:00 and out at 09:30 gives half-day and 0.50 hours |
| Recorder.LateFullDay | backend/src/controllers/attendanceController.js:89-100 | in at 09:45 and out at 18:00 stays late with 8.25 hours |
| Recorder.HalfDayUsesUnroundedHours | backend/src/controllers/attendanceController.js:90-96 | 4 h minus 1 ms is stored as 4.00 hours and is still a half-day |
| Summary.CountStatus | backend/src/controllers/attendanceController.js:159-163 | a status count never exceeds the number of records |
| Summary.Summarize | backend/src/controllers/attendanceController.js:151-165 | the forEach loop yields, for each status, the number of records with it, and the sum of their hours |
| Summary.EmptySummary | backend/src/controllers/attendanceController.js:151-157 | no records give all-zero counts and 0 hours |
| Summary.SummaryCountsEveryRecord | backend/src/controllers/attendanceController.js:159-165 | each record increments exactly one counter: the four counts sum to the number of records |
| Summary.SummaryOfConcat | backend/src/controllers/attendanceController.js:303-309 | the summary of two selections together is the field-wise sum of their summaries |
| Summary.SummaryOfOneMore | backend/src/controllers/attendanceController.js:159-164 | one more record raises exactly its status counter by one and the hours by its hours |
| Summary.Select | backend/src/controllers/attendanceController.js:146-149 | the records of the user (or of everyone) whose date lies in the interval, and only those |
| Summary.SelectConcat | backend/src/controllers/attendanceController.js:146-149 | the selection distributes over concatenation, so it keeps store order and every duplicate |
| Summary.SelectOne | backend/src/controllers/attendanceController.js:146-149 | a single record is selected exactly when it is the user's and its date lies in the interval |
| Summary.SummaryRangeOfMonth | backend/src/controllers/attendanceController.js:139-144 | with month and year given, the summary covers exactly that month's days |
| Summary.SummaryRangeDefault | backend/src/controllers/attendanceController.js:283-288 | with neither given, the summary covers exactly the current month's days |
| Summary.SummaryRangeDays | backend/src/controllers/attendanceController.js:138-144 | the parsed month of the parsed year, each defaulting to the current one, is covered exactly: a day is in the range iff it is one of that month's days |
| Summary.MySummary | backend/src/controllers/attendanceController.js:134-171 | the four counts of the personal summary add up to the number of the user's records selected for the month |
| Summary.MySummaryOfMonth | backend/src/controllers/attendanceController.js:138-165 | the personal summary is the summary of exactly the user's records dated in the requested month |
| Summary.TeamSummaryOf | backend/src/controllers/attendanceController.js:279-315 | totalEmployees is the number of users whose role is employee; the four counts add up to the number of records selected for the month |
| Summary.TeamSummaryOfMonth | backend/src/controllers/attendanceController.js:283-309 | the team summary is the summary of exactly the records of any user dated in the requested month |
| Summary.HistoryRange | backend/src/controllers/attendanceController.js:117-122 | the history is filtered by a month range iff both month and year are given; that range is the month's |
| TeamStatus.EntryFor | backend/src/controllers/attendanceController.js:396-420 | an employee's entry keeps the employee's id, name, email, employee ID and department |
| TeamStatus.TeamStatusOf | backend/src/controllers/attendanceController.js:393-423 | succeeds iff every record's user can be populated; then it gives one entry per employee, in employee order, with that employee's identity |
| TeamStatus.DefaultEntries | backend/src/controllers/attendanceController.js:396-409 | every employee's id maps to the absent, not-checked-in default entry, and there are no other keys |
| TeamStatus.TeamTodayStatus | backend/src/controllers/attendanceController.js:381-427 | the map-filling loops give exactly TeamStatusOf |
| TeamStatus.EntryStep | backend/src/controllers/attendanceController.js:411-420 | one more record overlays the entry iff it is the employee's |
| TeamStatus.EntryWithoutRecord | backend/src/controllers/attendanceController.js:403-407 | an employee with no record today is absent and neither checked in nor out |
| TeamStatus.EntryFromLastRecord | backend/src/controllers/attendanceController.js:411-420 | an employee's entry reflects that employee's last record today: checkedIn/checkedOut iff the times exist, and the record's status |
| TeamStatus.ForeignRecordsIgnored | backend/src/controllers/attendanceController.js:413 | a record of a user who is not an employee changes no entry |
| Dashboard.FindToday | backend/src/controllers/dashboardController.js:14-20 | a record is found only if it is the user's record of today; none is found only if none exists |
| Dashboard.BriefOf | backend/src/controllers/dashboardController.js:61-67 | no record gives absent with nothing checked; otherwise checkedIn/checkedOut iff the times exist, and the stored status |
| Dashboard.BriefAgreesWithView | backend/src/controllers/dashboardController.js:61-67 | the dashboard's today block agrees with the today endpoint on every shared field |
| Dashboard.OfUserOn | backend/src/controllers/dashboardController.js:53-56 | exactly the user's records of one day |
| Dashboard.LatestFirstMembers | backend/src/controllers/dashboardController.js:53-57 | the latest-first listing holds exactly the user's records dated in the last n days up to hi |
| Dashboard.OfUserOnAtMostOne | backend/src/models/Attendance.js:34-35 | with unique (userId, date) keys a user has at most one record per day |
| Dashboard.LatestFirstSorted | backend/src/controllers/dashboardController.js:57 | the listing is sorted by date, latest first |
| Dashboard.LatestFirstStrict | backend/src/controllers/dashboardController.js:57 | with unique keys, dates strictly decrease along the listing |
| Dashboard.RecentBounded | backend/src/controllers/dashboardController.js:50-58 | at most 7 records, all the user's, all dated from today minus 7 days to today |
| Dashboard.RecentComplete | backend/src/controllers/dashboardController.js:53-58 | when fewer than 7 are shown, every record of the user in the window is shown |
| Dashboard.RecentKeepsLatest | backend/src/controllers/dashboardController.js:50-58 | with unique keys, every record of the user dated today or in the 6 days before is shown: the limit of 7 can only cut the oldest day of the window |
| Dashboard.LatestFirstPrefix | backend/src/controllers/dashboardController.js:53-57 | the window of fewer days from the same day is a prefix of the longer window |
| Dashboard.LatestFirstAtMost | backend/src/controllers/dashboardController.js:53-57 | with unique keys, n days hold at most n of the user's records |
| Dashboard.RecentLatestFirst | backend/src/controllers/dashboardController.js:57 | the recent window is sorted by date, latest first |
| Dashboard.RecentOnePerDay | backend/src/controllers/dashboardController.js:53-58 | with unique keys the window shows at most one record per day |
| Dashboard.EmployeeDashboard | backend/src/controllers/dashboardController.js:7-81 | today's block from today's record, the fold over the current month's records, totalHours equal to the summary's hours, and the recent window |
| Dashboard.CountPresent | backend/src/controllers/dashboardController.js:102 | the present count never exceeds the number of records |
| Dashboard.PresentIsNotAbsent | backend/src/controllers/dashboardController.js:102-103 | present means status other than absent: records minus absent ones, and present plus late plus half-day |
| Dashboard.LateRecords | backend/src/controllers/dashboardController.js:104 | exactly the late records, and as many as the late count |
| Dashboard.LateRecordsConcat | backend/src/controllers/dashboardController.js:104 | the late filter distributes over concatenation, so it keeps store order and every duplicate |
| Dashboard.LateRecordsOne | backend/src/controllers/dashboardController.js:104 | a single record is kept exactly when it is late |
| Dashboard.LateArrivals | backend/src/controllers/dashboardController.js:180-186 | one entry per late record, in record order, with its user id and check-in time |
| Dashboard.WeeklyTrend | backend/src/controllers/dashboardController.js:114-131 | exactly 7 points for today-6 .. today, oldest first, each with that day's non-absent count and the employee total |
| Dashboard.Between | backend/src/controllers/dashboardController.js:110-112 | exactly the records dated in [lo, hi] |
| Dashboard.BetweenKeepsDays | backend/src/controllers/dashboardController.js:120-124 | filtering a day out of the weekly query gives that day's records of the whole store |
| Dashboard.Departments | backend/src/controllers/dashboardController.js:137-140 | every employee's department is listed, each department once |
| Dashboard.DepartmentsDeclared | backend/src/controllers/dashboardController.js:137-142 | a department is listed iff at least one employee belongs to it |
| Dashboard.DepartmentTotals | backend/src/controllers/dashboardController.js:137-142 | the dictionary's keys are the declared departments in insertion order; each holds its head count and 0 present |
| Dashboard.CountPresentByDepartment | backend/src/controllers/dashboardController.js:144-149 | the keys stay the same; each department gains today's non-absent records counted under it ('General' when the user has none) |
| Dashboard.DepartmentBreakdown | backend/src/controllers/dashboardController.js:133-156 | one entry per declared department, in insertion order, with total, present and absent = total - present |
| Dashboard.PresentIds | backend/src/controllers/dashboardController.js:160-162 | an id is listed iff some non-absent record of today has that user id |
| Dashboard.AbsentEmployees | backend/src/controllers/dashboardController.js:163-172 | exactly the employees whose id is not among the present ids |
| Dashboard.AbsentEmployeesConcat | backend/src/controllers/dashboardController.js:163-172 | the absent filter distributes over concatenation, so it keeps employee order and every duplicate |
| Dashboard.AbsentEmployeesOne | backend/src/controllers/dashboardController.js:163-172 | a single employee is kept exactly when no non-absent record today carries their id |
| Dashboard.AbsentOrPresent | backend/src/controllers/dashboardController.js:159-172 | every employee is absent iff no non-absent record of theirs exists today |
| Dashboard.ManagerDashboard | backend/src/controllers/dashboardController.js:86-194 | fails iff a non-absent record of today has no user; otherwise each field is its specification |
| Queries.FindByEmployeeId | backend/src/controllers/attendanceController.js:222 | the user found carries the employee ID; none is found only when nobody carries it |
| Queries.QueryOf | backend/src/controllers/attendanceController.js:218-233 | each condition is present iff its parameter is given; an unknown employee ID adds no condition; the range needs both dates |
| Queries.BuildQuery | backend/src/controllers/attendanceController.js:220-233 | the step-by-step query building gives QueryOf |
| Queries.Find | backend/src/controllers/attendanceController.js:235-237 | exactly the records meeting every present condition |
| Queries.FindConcat | backend/src/controllers/attendanceController.js:235-237 | the listing distributes over concatenation, so it keeps store order and every duplicate |
| Queries.FindOne | backend/src/controllers/attendanceController.js:235-237 | a single record is listed exactly when it meets every present condition |
| Queries.UnknownEmployeeDropped | backend/src/controllers/attendanceController.js:221-224 | an employee ID nobody carries lists the same records as none |
| Queries.HalfOpenRangeIgnored | backend/src/controllers/attendanceController.js:225-230 | one date alone does not filter |
| Queries.NoFilters | backend/src/controllers/attendanceController.js:220-237 | with no parameters every record is listed, in store order |
| Queries.OrNA | backend/src/controllers/attendanceController.js:345-348 | an empty field becomes 'N/A'; a non-empty one is kept |
| Queries.RowOf | backend/src/controllers/attendanceController.js:344-358 | the record's date, times, status name and hours are copied; a found user's employee ID, name, email and department are copied, each empty one as 'N/A'; all four are 'N/A' when the user is missing |
| Queries.Export | backend/src/controllers/attendanceController.js:320-358 | fails iff no record meets the status-free query; otherwise one row per selected record, in order |
| Queries.ExportMatchesListing | backend/src/controllers/attendanceController.js:322-342 | the export's rows are the listing's records without a status filter |
| EmployeeId.StripEmp | backend/src/utils/generateEmployeeId.js:13 | a leading "EMP" is removed; in any case the length drops by 0 or 3 |
| EmployeeId.StripEmpRemovesFirst | backend/src/utils/generateEmployeeId.js:13 | where "EMP" first occurs at position i, the result is the text before i followed by the text after those three letters |
| EmployeeId.StripEmpWithoutEmp | backend/src/utils/generateEmployeeId.js:13 | a string in which "EMP" does not occur is returned unchanged |
| EmployeeId.TrimSpaces | backend/src/utils/generateEmployeeId.js:13 | `parseInt` skips exactly a leading run of whitespace and keeps what follows it |
| EmployeeId.TrimStartSuffix | backend/src/utils/generateEmployeeId.js:13 | the trimmed text is a suffix of the input and everything cut off before it is whitespace |
| EmployeeId.ParseIntReadsNumber | backend/src/utils/generateEmployeeId.js:13 | after the whitespace, an optional sign and a run of decimal digits followed by a non-digit parse as the digits' value, negated after '-'; the rest is ignored |
| EmployeeId.ParseIntNaN | backend/src/utils/generateEmployeeId.js:13 | with no digit after the whitespace and the sign, the result is NaN |
| EmployeeId.Natural | backend/src/utils/generateEmployeeId.js:15 | a decimal rendering is non-empty digits without a leading zero |
| EmployeeId.PadStart | backend/src/utils/generateEmployeeId.js:15 | the result is at least n long, ends with the input and is filled with the pad character only on the left |
| EmployeeId.NextEmployeeId | backend/src/utils/generateEmployeeId.js:9-15 | the result starts with "EMP" and has at least 6 characters; no last ID gives "EMP001" |
| EmployeeId.ParsePadded | backend/src/utils/generateEmployeeId.js:13-15 | a zero-padded decimal rendering of m parses back to m |
| EmployeeId.Successor | backend/src/utils/generateEmployeeId.js:13-15 | when the suffix parses to n, the result is "EMP" plus n+1 padded to 3 digits, never cut; its suffix is all digits and parses back to n+1 |
| EmployeeId.PaddedId | backend/src/utils/generateEmployeeId.js:15 | the ID of a number has a digit suffix of length max(3, digits) that reads back as the number |
| EmployeeId.AfterEmp041 | backend/src/utils/generateEmployeeId.js:13-15 | "EMP041" is followed by "EMP042" |
| EmployeeId.NotANumber | backend/src/utils/generateEmployeeId.js:13-15 | "EMPabc" is followed by "EMPNaN" |
| EmployeeId.AfterEmp999 | backend/src/utils/generateEmployeeId.js:15 | "EMP999" is followed by "EMP1000": padding never truncates |
| EmployeeId.LexLast | backend/src/utils/generateEmployeeId.js:5-7 | the ID the descending string sort puts first: none iff there are no IDs, otherwise one of them |
| EmployeeId.LexLastIsGreatest | backend/src/utils/generateEmployeeId.js:5-7 | that ID is not below any ID on file in string order |
| EmployeeId.ReissuesEmp1000 | backend/src/utils/generateEmployeeId.js:5-15 | with "EMP999" and "EMP1000" on file, the sort picks "EMP999" and the generator returns "EMP1000", an ID already on file |
| EmployeeId.GenerateAsWritten | backend/src/utils/generateEmployeeId.js:5-15 | the registration's ID starts with "EMP" and has at least 6 characters; with no ID on file it is "EMP001" |
| EmployeeId.Highest | backend/src/utils/generateEmployeeId.js:13-14 | the largest non-negative number on file: not below any of them, and either 0 or one of them |
| EmployeeId.CorrectedIsFresh | backend/src/utils/generateEmployeeId.js:5-15 | the corrected ID reads back as the highest number plus one and differs from every ID on file |
| EmployeeId.FreshAbove | backend/src/utils/generateEmployeeId.js:15 | an ID numbered above every number on file is none of the IDs on file |
| EmployeeId.CorrectedAgreesWithSource | backend/src/utils/generateEmployeeId.js:5-15 | where the string sort does pick the highest number, the code's result is already the corrected one |

## Left out

- HTTP wiring, status codes, JSON shapes, authentication and role gates. The error messages are kept as values (`Recorder.Message`, `Queries.ExportMessage`).
- Thrown exceptions other than a dangling populated user, and the 500 responses they produce.
- The database engine.
  - Queries become functions over fetched sequences.
  - `populate` becomes a lookup in the user sequence.
  - `countDocuments` becomes a length.
  - MongoDB's `sort({ date: -1 })` on the listing, the history and the export is not modelled. They keep store order. Only the recent window's sort and limit are modelled.
- Time zones and daylight saving. A day is 24 hours, and records are dated by the day number of their local midnight. The local hour and minute of "now" are inputs.
- Invalid or NaN dates from unparsable month, year, startDate or endDate parameters.
  - The listing's date parameters are given as instants in local seconds since 1970-01-01, the unit of a record's day midnight. Check-in and check-out instants are milliseconds, and the range is never compared with them.
  - An empty parameter is modelled as absent.
- String formatting: `toLocaleString`, `toISOString().split('T')[0]` in the export and the trend, and the CSV file. Instants and day numbers stay numbers. The UTC shift of the trend's ISO date string is not modelled.
- Floating point. Hours are integer hundredths, which stands in for `parseFloat(x.toFixed(2))`. The summary's sum of hours is exact, so the dashboard's second rounding is the identity.
- Recorder.HundredthsOfHour: rounds half away from zero in integers. It does not model the binary floating-point error of `toFixed`.
- Object.entries key order: when a department name is an array-index string such as "7", JavaScript lists it first. The model keeps insertion order for every key.
- Dashboard.DepartmentTotals and Dashboard.DepartmentBreakdown: a department named after an inherited property of a plain object (`constructor`, `toString`, `__proto__` and the other names of `Object.prototype`) is treated as every other name. In the source the lookup at dashboardController.js:138 finds the inherited value, so no own entry is created, the counts go to the inherited object, and the department is missing from `departmentWise`. The model gives every name its own entry.
- A department that is `undefined` on an employee (the key "undefined") is not modelled. Departments are strings.
- `getEmployeeAttendance`: it repeats the listing's user and range filters with a 404 for an unknown id, and is not modelled separately.
- The racing of concurrent check-ins on the unique index. Each operation is atomic in the model.
- The seeder, the frontend, the database connection code and `csvExport.js`: none of them is part of this model.
- The `Date.now()` fallback ID in generateEmployeeId.js:17-18.
- JavaScript numbers above 2^53 (loss of precision, exponent notation in `toString`) in the ID successor. Numbers are unbounded.
- EmployeeId.ParseIntReadsNumber: states the decimal case only. The "0x" hexadecimal branch of `parseInt` is modelled in `EmployeeId.Unsigned`, but no lemma states its result.
- `parseInt` whitespace other than space, tab, LF, CR, VT, FF, U+00A0 and U+FEFF. The other Unicode space separators and line terminators are not modelled.
- Dashboard.LateArrivals: the contract states each entry's user id and check-in time. It does not state the name, employee ID and department, which come from the same populated user.
- Dashboard.BriefOf: the contract does not restate the check-in and check-out instants. `Dashboard.BriefAgreesWithView` ties them to `Recorder.ViewOf`, which states them.
- TeamStatus.TeamStatusOf: the contract states each entry's identity fields. Its attendance fields are stated by `TeamStatus.EntryWithoutRecord` and `TeamStatus.EntryFromLastRecord`.

## Findings

| source | as written | input that shows it | evidently intended | confidence | as-written member | corrected member |
|---|---|---|---|---|---|---|
| backend/src/utils/generateEmployeeId.js:5-15 | the last ID is chosen by a descending *string* sort on employeeId, and its number plus one is issued | IDs "EMP999" and "EMP1000" on file: the sort picks "EMP999", so the generator returns "EMP1000" again | the next ID is one more than the highest *number* on file, so it is never an ID already issued | not executed | EmployeeId.ReissuesEmp1000 | EmployeeId.CorrectedIsFresh |

The as-written generator is `EmployeeId.GenerateAsWritten`, which is `NextEmployeeId` of `LexLast`. The corrected one is `EmployeeId.GenerateCorrected`, one more than `Highest` of the numbers the IDs on file carry. `EmployeeId.CorrectedAgreesWithSource` shows that the two agree whenever the string sort happens to pick the highest number, which holds while every ID has three digits.

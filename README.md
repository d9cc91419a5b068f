# Attendance rules engine — a Dafny model

This project models the rules engine of the RFID attendance system in
`attendance_system/python/attendance.py`. A staff member taps a tag on a
reader. The engine then:

- identifies the tag through the `Sign` and `Staff` tables, adding a `Sign`
  row the first time a Staff tag is seen;
- checks the cooldown: a tap by a name whose last accepted tap is less
  than 18 seconds old is refused. The registry of last taps lives in the
  process, and each run of the program handles a single tag, so as the
  program stands the registry is empty at the check and the check always
  passes (see "## Findings");
- accepts taps only between 06:00 and 16:00, both ends included;
- flips the person's presence for the day in the `onsite` table: a tap while
  signed in closes the open record, any other tap opens a new one;
- mirrors the tap in two Google Sheets: the monthly sheet gets "Present", or
  "Present(LATE)" after 08:30, on a sign-in, and the daily sheet gets
  "IN"/"OUT" and the time.

At start-up `initialize_sheets` does four things:

- writes the header rows;
- finds today's column;
- appends missing staff to both sheets;
- writes "Absent" into today's column of every row the name index points
  to whose cell there is blank. The index points at the last row holding
  each distinct column-1 value, so a blank cell stays blank in an earlier
  row holding the same value, and in every row below the last non-empty
  name in column 1.

After 16:00 `auto_mark_out_all_users` closes, in one transaction, every
record still open today whose tag has a non-empty Staff name, and sets those
staff to "OUT" on the daily sheet. Records of tags without a Staff name stay
open. When the transaction fails the sweep rolls back and changes nothing.

Modules, in dependency order:

- `Text`: characters, blank strings (Python's `strip() == ""`), and
  zero-padded decimal formatting.
- `Clock`: instants as (day, microsecond of day) and the time constants;
  `is_signin_allowed`, `is_after_cutoff`, `strftime("%H:%M:%S")`, month
  lengths and the `YYYY-MM-DD` date headers.
- `Sheet`: a worksheet as a ragged grid of strings with 1-based addressing;
  `batch_update`, `append_rows`, `col_values`/`row_values` (trailing empty
  cells dropped, as the Sheets API returns them) and the `{name: i + 1}`
  row index. `class Worksheet` is a sheet whose cells the methods update
  in place.
- `Ledger`: the `Staff` and `onsite` tables as values. Covers the latest
  record of the day (`ORDER BY scan_date DESC LIMIT 1`), the sign-in/sign-out
  step, and the sweep's selection and update.
- `Identity`: `get_assigned_name_and_tag` as a function of the `Sign` table.
- `Store`: `class Database`, the mutable tables and their query and update
  methods.
- `Cooldown`: `last_tap_times` as `class Registry` and the cooldown rule.
- `Projection`: `update_monthly_sheet_status` and `update_daily_sheet_row`.
- `Roster`: `initialize_sheets`, covering the headers, today's column, the
  roster append and the Absent pre-fill, for both sheets.
- `Scanner`: `on_tag_scan`.
- `Sweep`: `auto_mark_out_all_users`.

**Design.** Each imperative operation is a method on the class that owns the
state. Its postcondition equates the new state with a specification function
of the old state. Those functions carry the lemmas.

**Inputs from outside.** The clock is a parameter `now`. Every database
write that can fail takes a boolean saying whether it commits: `insertOk`
for the `Sign` insert, `writeOk` for the `onsite` insert or update,
`commitOk` for the sweep's transaction.

**Behaviour the model keeps.**

- A re-entry the same day rewrites the monthly cell: someone marked
  "Present" at 08:00 who signs out and back in at 10:00 becomes
  "Present(LATE)" (`Projection.MonthlyScanCell`).
- The sheets are keyed by the `Sign` name while the roster uses `Staff`
  names. The two can differ, and then a scan finds no row and updates no
  sheet.

## Model

| member | source | states |
|---|---|---|
| Text.Pad2 | attendance_system/python/attendance.py:220 | `{:02d}` gives exactly two digits whose value is the number |
| Text.Pad2Injective | attendance_system/python/attendance.py:220 | two numbers below 100 pad to the same text exactly when they are equal |
| Clock.At | attendance_system/python/attendance.py:43-45 | a `time(h, m, s)` constant is the microsecond of the day at h:m:s |
| Clock.IsSigninAllowed | attendance_system/python/attendance.py:500-502 | `is_signin_allowed`: from 06:00 to 16:00, both ends included; the edges are proved in `Clock.CutoffBoundary` |
| Clock.IsAfterCutoff | attendance_system/python/attendance.py:496-498 | after the cutoff, sign-in is never allowed; from 06:00 on, "after cutoff" is exactly "sign-in not allowed" |
| Clock.CutoffBoundary | attendance_system/python/attendance.py:500-502 | 16:00 itself is inside the window and not after the cutoff; one microsecond later it is the reverse; 06:00 is inside, the microsecond before is not |
| Clock.FormatTimeRoundTrip | attendance_system/python/attendance.py:580 | `%H:%M:%S` is eight characters with colons at 2 and 5 and digits elsewhere, and reading it back gives the whole second of the day |
| Clock.DaysInMonth | attendance_system/python/attendance.py:219 | `calendar.monthrange(...)[1]` is between 28 and 31 |
| Clock.DateHeaders | attendance_system/python/attendance.py:220 | one header per day of the month, header i being the date of day i + 1; `Clock.TodayColumn` and `Clock.DateStringInjective` prove that today's header sits at index `day` and that distinct days give distinct headers |
| Clock.DateStringInjective | attendance_system/python/attendance.py:220 | two days of one month give the same header exactly when they are the same day |
| Clock.IndexOf | attendance_system/python/attendance.py:252-257 | `list.index`: absent exactly when the value is missing, else the first position holding it |
| Clock.TodayColumn | attendance_system/python/attendance.py:221-254 | for a valid date, today's string sits at index `day` of the monthly headers, so the column is `day + 1` |
| Sheet.SetCell | attendance_system/python/attendance.py:488 | writing one cell changes that cell only, growing the grid when needed |
| Sheet.SetCellSame | attendance_system/python/attendance.py:300-301 | writing a value a stored cell already holds leaves the grid unchanged |
| Sheet.ApplyWritesCell | attendance_system/python/attendance.py:300-301 | after `batch_update`, each addressed cell holds its last written value and every other cell is unchanged |
| Sheet.LastWriteNone | attendance_system/python/attendance.py:514 | a cell no write addresses gets no value from the batch |
| Sheet.LastWriteUnique | attendance_system/python/attendance.py:512-514 | a cell addressed once gets that write's value |
| Sheet.LastWriteUniform | attendance_system/python/attendance.py:637-646 | when every write to a cell carries the same value, the cell gets that value exactly when it is addressed, whatever the order |
| Sheet.ApplyWritesSame | attendance_system/python/attendance.py:300-301 | a batch whose every write repeats a stored value changes nothing |
| Sheet.StripTrailing | attendance_system/python/attendance.py:260 | the result is a prefix ending in a non-empty value, and only empty values are dropped |
| Sheet.Column | attendance_system/python/attendance.py:260 | a column has one entry per row, entry i being the cell of row i + 1; `Sheet.ColValuesAt` proves that the fetched `col_values` reads back each cell |
| Sheet.ColValuesAt | attendance_system/python/attendance.py:287-294 | position r - 1 of `col_values`, or "" past its end, is the cell in row r |
| Sheet.ColValuesCovers | attendance_system/python/attendance.py:287-294 | a non-empty cell is always inside `col_values` |
| Sheet.AppendCell | attendance_system/python/attendance.py:277 | after `append_rows`, old rows read as before and row \|g\| + k is appended row k |
| Sheet.ColValuesExt | attendance_system/python/attendance.py:280 | two grids whose column cells agree give the same `col_values` |
| Sheet.AppendedNames | attendance_system/python/attendance.py:276-280 | re-reading column 1 after appending rows with non-empty names gives the old column followed by the new names |
| Sheet.RowIndex | attendance_system/python/attendance.py:285 | `{name: i + 1}` holds exactly the listed names, each at a row holding it |
| Sheet.RowIndexLast | attendance_system/python/attendance.py:285 | later duplicates win: no row after a name's indexed row holds that name |
| Sheet.RowIndexAt | attendance_system/python/attendance.py:285 | a name that does not occur again later is indexed at its own row |
| Sheet.RowIndexInjective | attendance_system/python/attendance.py:285 | different names map to different rows |
| Sheet.AppendedRow | attendance_system/python/attendance.py:276-285 | the k-th appended new name is indexed at row \|g\| + k + 1 |
| Sheet.AppendedRowHolds | attendance_system/python/attendance.py:276-285 | the row the index gives for the k-th appended name is the k-th appended row |
| Sheet.Worksheet.BatchUpdate | attendance_system/python/attendance.py:300-301 | the sheet becomes the old grid with the writes applied in order |
| Sheet.Worksheet.AppendRows | attendance_system/python/attendance.py:277 | the rows are added after the old ones |
| Ledger.StaffName | attendance_system/python/attendance.py:465-469 | no name exactly when no Staff row has the tag; otherwise a name of such a row |
| Ledger.LatestToday | attendance_system/python/attendance.py:416-423 | the latest record of the tag on the day: none exactly when it has none; ties go to the later row |
| Ledger.LatestActiveIffOnSite | attendance_system/python/attendance.py:410-426 | in a coherent table, the latest record of the day is active exactly when the tag is on site |
| Ledger.AtMostOneActive | attendance_system/python/attendance.py:564-573 | in a coherent table, a tag has at most one active record per day |
| Ledger.CloseIds | attendance_system/python/attendance.py:452-456 | `UPDATE ... SET Active = 0, sign_out_date` closes exactly the listed ids and keeps the length; `Ledger.CloseKeepsCoherent` and `Ledger.SweepCloses` prove what this does to the table's coherence and to the sweep's records |
| Ledger.CloseKeepsCoherent | attendance_system/python/attendance.py:452-456 | closing any set of records keeps the table coherent and its ids fresh, and keeps every record's scan time and tag |
| Ledger.ScanLedger | attendance_system/python/attendance.py:558-573 | the database side of a scan: with an active latest record today, close that record at `now` and report a sign-out; otherwise insert an active record at `now` with the next id and report a sign-in; `Ledger.ScanFlips` proves what this does to presence |
| Ledger.ScanFlips | attendance_system/python/attendance.py:558-573 | a scan signs in exactly when the tag was not on site and leaves it on site exactly then; coherence and id freshness are kept; old records keep their scan time and tag; new ones carry `now` |
| Ledger.ScanLeavesOthers | attendance_system/python/attendance.py:558-573 | a scan does not change any other tag's presence, nor the same tag's presence on another day |
| Ledger.Alternation | attendance_system/python/attendance.py:564-573 | accepted scans of one tag on one day alternate between sign-in and sign-out, starting with whichever the state requires |
| Ledger.ChronologicalStep | attendance_system/python/attendance.py:532 | scans in time order stay in order after one of them is applied |
| Ledger.ActiveOn | attendance_system/python/attendance.py:597-603 | the selection holds exactly the active records scanned on the day |
| Ledger.SweepIds | attendance_system/python/attendance.py:612-624 | the ids updated are those of selected records whose tag has a non-empty Staff name |
| Ledger.SweepCloses | attendance_system/python/attendance.py:610-632 | a committed sweep closes exactly today's active records with a staffed tag, at `now`, and leaves every other record alone |
| Ledger.SweepSignsEveryoneOut | attendance_system/python/attendance.py:587-632 | afterwards no staffed tag is on site today, and the table stays coherent with fresh ids |
| Identity.Resolve | attendance_system/python/attendance.py:358-407 | `get_assigned_name_and_tag` as a function of Staff, Sign and whether the insert commits: the returned name and the new Sign table; `Identity.ResolveCases`, `ResolveFrame` and `ResolveAgain` state its cases and guarantees |
| Identity.ResolveCases | attendance_system/python/attendance.py:358-407 | the four cases: a Sign row is honoured only while the tag is in Staff; an unknown tag gains a Sign row with its Staff name only if the insert commits |
| Identity.ResolveFrame | attendance_system/python/attendance.py:366-403 | a name comes back exactly when the tag is in Staff and either in Sign or inserted; the Sign table only gains this tag; Sign rows stay Staff tags |
| Identity.ResolveAgain | attendance_system/python/attendance.py:366-379 | once a tag resolves, resolving it again returns the same name and changes nothing |
| Store.Database.GetStaffNameByTagId | attendance_system/python/attendance.py:465-469 | `get_staff_name_by_tag_id` is the Staff lookup `Ledger.StaffName`, whose contract gives none exactly when no Staff row has the tag |
| Store.Database.GetCurrentOnsiteStatus | attendance_system/python/attendance.py:410-426 | `get_current_onsite_status` is the latest record of the tag on the day, as `Ledger.LatestToday` specifies, with its active flag and id |
| Store.Database.GetAssignedName | attendance_system/python/attendance.py:358-407 | the returned name and the new Sign table are the resolution's; onsite is unchanged |
| Store.Database.AddOnsiteRecord | attendance_system/python/attendance.py:428-444 | on commit, one active record for the tag at `now` with the next id; on failure nothing changes; returns whether it committed |
| Store.Database.UpdateOnsiteRecord | attendance_system/python/attendance.py:446-463 | on commit, that id is closed at `now`; on failure nothing changes; returns whether it committed |
| Store.Database.CommitSweep | attendance_system/python/attendance.py:610-650 | on commit, all listed ids are closed at `now`; on rollback nothing changes |
| Cooldown.Allows | attendance_system/python/attendance.py:519-528 | `check_cooldown`: a name with no recorded tap passes; otherwise at least 18 s must have elapsed; the edges are proved in `Cooldown.CooldownBoundary` |
| Cooldown.Registry.CheckCooldown | attendance_system/python/attendance.py:519-528 | the check against the registry's current map, as `Cooldown.Allows` |
| Cooldown.FreshRunAllows | attendance_system/python/attendance.py:64-65 | with the empty registry each run starts from, the check passes for every name and time |
| Cooldown.CooldownBoundary | attendance_system/python/attendance.py:519-528 | a tap exactly 18 s after the last is accepted; one a microsecond sooner is refused; other names are unaffected |
| Cooldown.Registry.RecordTap | attendance_system/python/attendance.py:555 | the name's last tap becomes `now`, others stay |
| Projection.MonthlyStatus | attendance_system/python/attendance.py:485 | "Present(LATE)" exactly after 08:30, "Present" exactly at or before |
| Projection.MonthlyAfterScan | attendance_system/python/attendance.py:471-493 | the monthly sheet after a scan: on a sign-in of an indexed name, today's cell of its row gets the status; otherwise unchanged; `Projection.MonthlyScanCell` states the cell-level effect |
| Projection.MonthlyScanCell | attendance_system/python/attendance.py:471-493 | only the name's cell in today's column can change, and only on a sign-in by a listed name |
| Projection.MonthlyNeverReverted | attendance_system/python/attendance.py:483-491 | a scan never turns a Present mark back to blank or Absent, and a sign-out leaves the sheet unchanged |
| Projection.DailyAfterScan | attendance_system/python/attendance.py:504-517 | the daily sheet after a scan: for an indexed name, Status and Time of its row get the new values; otherwise unchanged; `Projection.DailyScanCell` states the cell-level effect |
| Projection.DailyScanCell | attendance_system/python/attendance.py:504-517 | only Status (column 3) and Time (column 4) of the name's row change, to the new status and time |
| Projection.UpdateMonthlySheetStatus | attendance_system/python/attendance.py:471-493 | the sheet becomes the scan's monthly grid |
| Projection.UpdateDailySheetRow | attendance_system/python/attendance.py:504-517 | returns whether the name has a row; the sheet becomes the scan's daily grid |
| Roster.StaffNames | attendance_system/python/attendance.py:225-226 | the names in Staff order; `Roster.MissingNamesSpec` and `Roster.RosterComplete` prove that these are exactly the names appended or already listed |
| Roster.MissingNamesSpec | attendance_system/python/attendance.py:267-273 | the new rows hold each staff name not already in the sheet, once |
| Roster.MissingNamesNone | attendance_system/python/attendance.py:267-276 | when every name is already present nothing is appended |
| Roster.DeptOfLast | attendance_system/python/attendance.py:230 | the department is that of the name's last Staff row, or "N/A" when it has none |
| Roster.NewMonthlyRows | attendance_system/python/attendance.py:267-273 | the loop builds `[name] + [''] * (len - 1)` for each missing name in Staff order |
| Roster.NewDailyRows | attendance_system/python/attendance.py:339-343 | the loop builds `[name, department, "OUT", ""]` for each missing name in Staff order |
| Roster.AbsentWrites | attendance_system/python/attendance.py:289-298 | every collected write puts "Absent" in today's column |
| Roster.AbsentWritesRow | attendance_system/python/attendance.py:289-298 | a row is written exactly when it is a name's row and its cell in today's column is blank or missing |
| Roster.AbsentUpdates | attendance_system/python/attendance.py:289-298 | the loop collects exactly those writes |
| Roster.PrefillWrites | attendance_system/python/attendance.py:285-298 | the pre-fill writes only "Absent", only in today's column |
| Roster.PrefillWritesRow | attendance_system/python/attendance.py:285-298 | a row is pre-filled exactly when column 1 indexes it and its cell is blank |
| Roster.AbsentFill | attendance_system/python/attendance.py:285-301 | after the pre-fill, each indexed blank cell of today's column reads "Absent" and every other cell is unchanged |
| Roster.MarkedNotBlank | attendance_system/python/attendance.py:285-301 | after the pre-fill no indexed row is blank in today's column |
| Roster.MarkAbsentKeepsNames | attendance_system/python/attendance.py:285-301 | the pre-fill leaves the name column unchanged |
| Roster.MarkAbsentIdempotent | attendance_system/python/attendance.py:285-301 | pre-filling twice is the same as pre-filling once |
| Roster.PrefillNone | attendance_system/python/attendance.py:300-301 | with no blank indexed cell, the sheet is unchanged |
| Roster.MarkAbsentKeepsHeader | attendance_system/python/attendance.py:285-301 | the pre-fill keeps the header row |
| Roster.FixHeaderCell | attendance_system/python/attendance.py:244-247 | a header that differs is written over row 1; every other cell is unchanged; afterwards the header reads right |
| Roster.FixHeaderKeeps | attendance_system/python/attendance.py:244-245 | a sheet whose header already reads right is unchanged |
| Roster.HeaderRead | attendance_system/python/attendance.py:248 | re-reading a fixed header gives the expected headers |
| Roster.HeaderFinds | attendance_system/python/attendance.py:248-254 | once row 1 starts with non-blank headers, `headers.index(x)` on the re-read row finds any header at its position among the expected ones |
| Roster.HeaderFindsToday | attendance_system/python/attendance.py:252-254 | with the monthly header in place, today's date is found at index `day` |
| Roster.MonthlyHeadersNotBlank | attendance_system/python/attendance.py:220-221 | no monthly header is blank |
| Roster.DailyHeadersNotBlank | attendance_system/python/attendance.py:320 | no daily header is blank |
| Roster.InitMonthly | attendance_system/python/attendance.py:219-301 | the monthly set-up: header check, lookup of today's date (none when missing), roster append, name index and Absent pre-fill; `Roster.InitMonthlyStages`, `TodayColumnFound` and `InitMonthlyIdempotent` state its properties |
| Roster.InitMonthlyStages | attendance_system/python/attendance.py:243-301 | the monthly set-up always finds today's column and is header fix, then roster append, then pre-fill |
| Roster.TodayColumnFound | attendance_system/python/attendance.py:252-257 | the set-up never exits for a missing date column, and the column is `day + 1` |
| Roster.RosterComplete | attendance_system/python/attendance.py:260-280 | after the append, every staff name is in column 1 |
| Roster.SyncMonthlyComplete | attendance_system/python/attendance.py:276 | when the roster is already complete, nothing is appended |
| Roster.SyncDailyComplete | attendance_system/python/attendance.py:345 | the same for the daily sheet |
| Roster.SyncMonthlyReady | attendance_system/python/attendance.py:243-280 | for non-empty staff names: after the header fix and the append, the header reads right and every staff name is listed |
| Roster.PrepareStable | attendance_system/python/attendance.py:260-301 | preparing an already prepared sheet changes nothing |
| Roster.PreparedStable | attendance_system/python/attendance.py:243-301 | for named staff and non-blank headers, a second header fix and preparation of the prepared sheet give back the same set-up |
| Roster.MonthlyPreparedStable | attendance_system/python/attendance.py:219-301 | the same for the month's own headers and any column other than the name column |
| Roster.InitNeverDowngrades | attendance_system/python/attendance.py:243-301 | below the header, the set-up never lowers a mark: Present stays, blank may become Absent |
| Roster.StagesNeverDowngrade | attendance_system/python/attendance.py:243-301 | the same, stage by stage |
| Roster.InitMonthlyIdempotent | attendance_system/python/attendance.py:212-302 | running the monthly set-up twice gives the same sheet, column and row index as running it once |
| Roster.InitDaily | attendance_system/python/attendance.py:304-353 | the daily set-up: header check, roster append with department and "OUT", and the name index; `Roster.DailyRosterComplete` and `InitDailyIdempotent` state its properties |
| Roster.DailyRosterComplete | attendance_system/python/attendance.py:319-353 | for non-empty staff names: every staff name gets a daily row; for a name not already listed, the row the index gives reads name, department, "OUT", "" |
| Roster.SyncDailyNewRow | attendance_system/python/attendance.py:336-353 | for non-empty staff names: a missing name is indexed, and its indexed row reads name, department, "OUT", "" |
| Roster.NewNamesNonEmpty | attendance_system/python/attendance.py:267-270 | with named staff, no appended name is empty |
| Roster.SyncDailyReady | attendance_system/python/attendance.py:320-347 | for non-empty staff names: after the header fix and the append, the daily header reads right and every staff name is listed |
| Roster.InitDailyIdempotent | attendance_system/python/attendance.py:319-353 | running the daily set-up twice gives the same sheet and index as running it once |
| Roster.CheckHeaders | attendance_system/python/attendance.py:244-247 | the sheet becomes the header-fixed grid |
| Roster.PrepareMonthly | attendance_system/python/attendance.py:260-301 | the sheet and the returned column and index are the prepared ones |
| Roster.SetUpMonthly | attendance_system/python/attendance.py:232-302 | the result is the monthly set-up of the old sheet |
| Roster.SetUpDaily | attendance_system/python/attendance.py:304-353 | the sheet and row index are the daily set-up of the old sheet |
| Roster.InitializeSheets | attendance_system/python/attendance.py:212-355 | both sheets and the returned column and indices are the set-ups of the old sheets |
| Scanner.Scan | attendance_system/python/attendance.py:530-584 | `on_tag_scan` on the stores: identify, cooldown, time window, record the tap, then the database write and the sheet updates; `Scanner.ScanRefused`, `ScanWriteFails`, `ScanAccepted` and `ScanKeepsInv` state its cases |
| Scanner.ScanRefused | attendance_system/python/attendance.py:538-552 | unidentified, cooling-down and out-of-window scans are refused in that order; they change only the Sign table and leave the cooldown unrestarted |
| Scanner.ScanWriteFails | attendance_system/python/attendance.py:554-584 | a scan passing the gates records its tap; when the database write fails it changes neither the onsite table nor the sheets |
| Scanner.ScanAccepted | attendance_system/python/attendance.py:554-581 | an accepted scan signs in exactly when the tag was not on site; presence flips; the database invariant holds; the tap is recorded; the monthly and daily sheets get their scan updates |
| Scanner.ScanKeepsInv | attendance_system/python/attendance.py:530-584 | every scan keeps the database invariant |
| Scanner.CommitScan | attendance_system/python/attendance.py:558-584 | the database write and both sheet updates leave the stores and outcome the commit function gives; nothing changes when the write fails |
| Scanner.OnTagScan | attendance_system/python/attendance.py:530-584 | the stores and the outcome after the call are those of the scan function on the stores before it |
| Sweep.AutoMarkOut | attendance_system/python/attendance.py:587-658 | `auto_mark_out_all_users` on the onsite table and the daily sheet: nothing before the cutoff, with nothing selected or on rollback; otherwise the staffed records close and their daily rows get "OUT" and the time; `Sweep.AutoMarkOutEffect` states it |
| Sweep.SweepWritesValues | attendance_system/python/attendance.py:634-638 | every collected write is "OUT" in column 3 or the sweep's time in column 4 |
| Sweep.SweepWritesHit | attendance_system/python/attendance.py:634-638 | column 3 or 4 of a row is written exactly when a selected record's staff name owns that row |
| Sweep.SweepDailyCell | attendance_system/python/attendance.py:634-646 | after the batch, each swept row reads "OUT" and the time; all other cells are unchanged |
| Sweep.AutoMarkOutEffect | attendance_system/python/attendance.py:587-658 | after 16:00 and on commit, exactly today's staffed active records close at `now` and exactly their daily rows read "OUT" and the time; otherwise nothing changes |
| Sweep.AutoMarkOutSignsOut | attendance_system/python/attendance.py:587-658 | the sweep keeps the table coherent; once it has run and committed, no staffed tag is on site today |
| Sweep.PlanSweep | attendance_system/python/attendance.py:612-638 | the loop collects exactly the sweep's ids and sheet writes |
| Sweep.AutoMarkOutAllUsers | attendance_system/python/attendance.py:587-658 | the onsite table and the daily sheet become the sweep's; Sign and the id counter are unchanged |

## Findings

| source | as written | input that shows it | evidently intended | confidence | as-written member | corrected member |
|---|---|---|---|---|---|---|
| attendance_system/python/attendance.py:519-528 | `last_tap_times` starts empty in every process (lines 64-65), and each process handles one tag and exits (lines 663-721), so `check_cooldown` always passes | the same tag scanned twice, 5 seconds apart, by two runs: both scans are accepted and the person is signed in and straight out again | a tap less than 18 seconds after the name's last accepted tap is refused | high for the code as written, medium for the intent; not executed | Cooldown.FreshRunAllows | Cooldown.CooldownBoundary |

## Left out

- The lock file, the retry wrappers around database and Sheets calls, connection and configuration loading, conditional formatting and logging are not modelled: they decide nothing about attendance.
- The program's entry point is not modelled as such. Each run reads one tag, sets up the sheets, handles that one scan, runs the sweep and exits. So the cooldown registry is empty when the one scan is checked; `Cooldown.FreshRunAllows` states this. `Cooldown.Registry` models `check_cooldown` and `last_tap_times` as a process that handles many scans would use them.
- Tags are compared by exact string equality in `Identity.Resolve`, `Ledger.StaffName` and `Ledger.OnDay`. The source compares them in SQL (`WHERE tag_id = %s`), and the result there depends on the column collation: MySQL's default collation ignores case.
- Database reads are assumed never to fail. The SELECTs of `get_assigned_name_and_tag`, `get_current_onsite_status` and the sweep are not inside any `try`. An exception there ends the run after earlier effects have already landed, such as a committed `Sign` insert or a recorded tap.
- Ledger.ScanFlips: requires that the clock is not behind any of the day's records (`ClockNotBehind`). Otherwise a tap could find an older record as the latest one, and the source itself could then open a second active record.
- Ledger.SignInStep: requires `ClockNotBehind`, for the same reason.
- Ledger.Alternation: requires the scan times to be in order and not behind the table (`Chronological`), for the same reason.
- Scanner.ScanAccepted: requires `ClockNotBehind`, for the same reason.
- Scanner.ScanKeepsInv: requires `ClockNotBehind`, for the same reason.
- Whether `connection.start_transaction()` in the sweep succeeds depends on the MySQL driver's transaction state, which is not part of this model. The connection keeps its default of autocommit off, so the sweep's earlier SELECT has probably already opened a transaction; `start_transaction()` would then raise, and the handler rolls back. The model takes this outcome as `commitOk = false`, under which the sweep changes nothing (`Sweep.AutoMarkOutEffect`).
- Worksheet lookup, creation, renaming and clearing are not modelled. Each sheet is the grid it holds when set-up starts, empty when new.
- Sheets API failures are not modelled: every sheet write is assumed to apply.
- The source reads `datetime.now()` several times during one scan or sweep. The model uses a single `now`.
- Roster.InitMonthlyIdempotent and Roster.InitDailyIdempotent: proved only when every staff name is non-empty. `col_values` drops trailing empty cells. So when an appended blank name ends up as the last entry of column 1, it is not read back, and the source appends it again on every run.
- Roster.RosterComplete: stated for non-empty staff names, for the same reason.
- Roster.SyncMonthlyReady: stated for non-empty staff names, for the same reason. A blank name that ends up last in column 1 is not listed.
- Roster.DailyRosterComplete: stated for non-empty staff names, for the same reason. A blank name that ends up last in column 1 gets no index entry.
- Roster.SyncDailyNewRow: stated for non-empty staff names, for the same reason.
- Roster.SyncDailyReady: stated for non-empty staff names, for the same reason.
- Sheet.Worksheet.AppendRows: adds the rows directly after the stored grid. The real API appends after the last non-empty row, which differs only when the grid ends in empty rows.
- Ledger.LatestToday: breaks ties in scan time toward the later table row. The SQL `ORDER BY scan_date DESC LIMIT 1` leaves the tie order unspecified.
- Clock.DateHeaders: writes the year as its plain decimal digits. This matches `strftime("%Y")` only for years from 1000 on.
- The `%B %Y` and `today_str` tab names are not modelled, because sheet lookup is not.

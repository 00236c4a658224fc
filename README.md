# Overtime and vacation ledger, modelled in Dafny

The application keeps a directory of employees and two append-only logs of
time records, one for overtime and one for vacation. Each record holds the
full number of minutes for one employee on one day. It is never a delta.
Nothing is edited in place: a correction, or a deletion written as 0 minutes,
is a newer record for the same day.

The value shown for a day comes from the record with the greatest `createdAt`.
When several records share that timestamp, the earliest-inserted one wins:
- `getDailyData` gets this from a stable newest-first sort.
- `getMonthlyStats` gets it from a `Map` that replaces an entry only on a strictly newer timestamp.

A month's total for a kind is the sum of those per-day values. `remaining` is
overtime minus vacation. Durations are shown as `H:MM` and read back from the
same form.

Files:
- `js_builtins.dfy` (module `JsBuiltins`) models the JavaScript built-ins used by the code: `trim`, `split` on one character (with a `Join` that exists only to state what `split` inverts), `toString` and `padStart` for non-negative integers, and `parseInt` on digit strings.
- `time_utils.dfy` (module `TimeUtils`) models `formatTime`, `parseTimeToMinutes`, `convertTimeToMinutes` and the time-entry popup's fields.
- `records.dfy` (module `Records`) holds the values and the pure parts of the store:
  - directory lookups and updates;
  - the reference definition of a day's deciding record (`IsLatest`, `LatestIndex`);
  - the stable newest-first sort;
  - the filters;
  - the `calculateLatestTotals` loop (`CalculateLatestTotals`).
- `overtime_data.dfy` (module `OvertimeData`) has the class `OvertimeStore` with fields `employees`, `overtimeRecords` and `vacationRecords`, and the hook's operations as methods and functions.

## Model

| member | source | states |
|---|---|---|
| OvertimeData.OvertimeStore.constructor | src/hooks/useOvertimeData.js:10-12 | The store starts with an empty directory and two empty logs. |
| OvertimeData.OvertimeStore.AddEmployee | src/hooks/useOvertimeData.js:38-48 | Appends exactly one employee at the end, with the trimmed name, the id `id` and the creation time `now` (two separate clock reads). The earlier entries and both logs are unchanged. |
| Records.AppendFreshKeepsDistinct | src/hooks/useOvertimeData.js:38-48 | Appending an entry whose id is not yet used keeps ids distinct. `addEmployee` itself does not check this. |
| OvertimeData.OvertimeStore.UpdateEmployee | src/hooks/useOvertimeData.js:50-56 | The directory becomes `Renamed` of the old one, with the trimmed name. An unknown id leaves it unchanged. Distinct ids stay distinct. Both logs are unchanged. |
| Records.Renamed | src/hooks/useOvertimeData.js:51-53 | Keeps the length and order. Every entry keeps its id and creation time. Exactly the entries with the id get the new name. An unknown id changes nothing. |
| Records.RenamedKeepsDistinct | src/hooks/useOvertimeData.js:51-53 | Renaming keeps ids distinct. |
| Records.RenamedThenFind | src/hooks/useOvertimeData.js:51-53 | After a rename, `find` on the id returns the same entry as before, under the new name. |
| OvertimeData.OvertimeStore.DeleteEmployee | src/hooks/useOvertimeData.js:58-62 | The directory becomes `WithoutEmployee` of the old one: no entry with that id is left, and every entry with another id stays. Distinct ids stay distinct. Neither log is touched, so an employee's records outlive the employee. |
| Records.WithoutEmployee | src/hooks/useOvertimeData.js:59 | The result is no longer than the input. An entry is in it exactly when it is in the input and has another id. An unknown id changes nothing. |
| Records.WithoutEmployeeAppend | src/hooks/useOvertimeData.js:59 | Deleting from two lists joined is deleting from each and joining, so the entries that stay keep their order. |
| Records.WithoutEmployeeRemovesOne | src/hooks/useOvertimeData.js:59 | With distinct ids, deleting the id of entry `k` leaves exactly the entries before and after `k`, in order. |
| Records.WithoutEmployeeKeepsDistinct | src/hooks/useOvertimeData.js:59 | Deleting keeps ids distinct. |
| Records.RemoveKeepsDistinct | src/hooks/useOvertimeData.js:59 | Taking one entry out of a list with distinct ids keeps them distinct. |
| Records.FindEmployee | src/hooks/useOvertimeData.js:66-67 | Returns nothing exactly when the id is unknown. Otherwise it returns an entry with that id such that no earlier entry has the id, i.e. the first match. |
| OvertimeData.OvertimeStore.UpdateDailyTime | src/hooks/useOvertimeData.js:65-91 | An unknown employee changes nothing. For a known one: <br>• one record is appended to the end of the chosen log, with the given id, employee, date, minutes (any integer, as the code stores them unchecked) and time, and the employee's current name; <br>• the other log and the directory are unchanged; <br>• if the record is newer than every earlier record of that day, `GetDailyData` for the day returns its minutes. |
| Records.AppendNewerWins | src/hooks/useOvertimeData.js:69-90 | A record strictly newer than every earlier record of its day decides that day, including a 0 written as a deletion. |
| Records.AppendNotNewerKeeps | src/hooks/useOvertimeData.js:69-90 | A record no newer than an existing record of its day leaves the day's value unchanged. On equal timestamps the earlier record keeps winning. |
| Records.AppendOtherDayKeeps | src/hooks/useOvertimeData.js:69-90 | Appending a record leaves the value of every other employee and day unchanged. |
| OvertimeData.OvertimeStore.Log | src/hooks/useOvertimeData.js:95 | The `type` argument selects the overtime log for `Overtime` and the vacation log otherwise. |
| OvertimeData.OvertimeStore.GetDailyData | src/hooks/useOvertimeData.js:94-101 | The result of filter, stable newest-first sort and first element equals the value of the reference definition `ResolvedMinutes`. It is 0 when the day has no record. Otherwise it is the minutes of the record that `IsLatest` names. |
| Records.IsLatest | src/hooks/useOvertimeData.js:94-101 | The reference definition of the record that decides a day: it is for the day, no record of the day is newer, and every record of the day inserted before it is strictly older. |
| Records.LatestIndex | src/hooks/useOvertimeData.js:125-129 | The one-pass search that replaces its candidate only on a strictly newer timestamp gives -1 or an index into the log, and any index it gives holds a record of the day. `LatestIndexIsLatest` proves it is the `IsLatest` record. |
| Records.LatestIndexIsLatest | src/hooks/useOvertimeData.js:94-101 | The one-pass search finds no record exactly when the day has none. Otherwise the record it finds matches the day, is at least as new as every match, and is strictly newer than every earlier match. |
| Records.LatestIsUnique | src/hooks/useOvertimeData.js:94-101 | The tie-break names at most one record per day. |
| Records.ResolvedMinutes | src/hooks/useOvertimeData.js:100 | Gives 0 without a record. Otherwise it gives the minutes of the record `IsLatest` names. |
| Records.SortByNewest | src/hooks/useOvertimeData.js:98 | The result is a permutation of the input (same multiset), sorted newest first. Of the sort's stability, the part `getDailyData` reads is proved in `NewestFirstIsLatest`. |
| Records.InsertByNewest | src/hooks/useOvertimeData.js:98 | Inserting adds exactly the one element, as a multiset. |
| Records.InsertKeepsNewestFirst | src/hooks/useOvertimeData.js:98 | Inserting keeps the list newest first. The new element becomes the head only when strictly newer than the old head, so among equal timestamps the earlier one stays in front. |
| Records.NewestFirstIsLatest | src/hooks/useOvertimeData.js:96-100 | The sorted selection for a day is empty exactly when the day has no record. Otherwise its head is the record the one-pass search finds, i.e. the earliest-inserted among the newest. |
| Records.Select | src/hooks/useOvertimeData.js:97 | Keeps exactly the elements that meet the condition, and is never longer than its input. |
| Records.SelectCounts | src/hooks/useOvertimeData.js:97 | Every element that meets the condition occurs in the result as often as in the input; no other element occurs. |
| Records.SelectAppend | src/hooks/useOvertimeData.js:97 | Selecting from two lists joined is selecting from each and joining, so the kept elements keep their order. |
| Records.SelectNone | src/hooks/useOvertimeData.js:116-117 | A condition no record meets selects nothing. |
| Records.SelectKeepsLatest | src/hooks/useOvertimeData.js:107-117 | A filter that keeps every record of a day keeps that day's deciding record and its value. |
| Records.CalculateLatestTotals | src/hooks/useOvertimeData.js:120-133 | The `forEach`/`Map` loop followed by the sum returns `LatestTotal`, i.e. each distinct day's deciding record counted once. |
| Records.TracksLatestStep | src/hooks/useOvertimeData.js:123-130 | One turn of the loop keeps its invariant: the kept keys are the days seen, in first-seen order, and each is mapped to that day's deciding record so far. |
| Records.KeptRecordAdds | src/hooks/useOvertimeData.js:132 | Adding the next kept record extends the running sum by that day's value. |
| Records.DistinctKeys | src/hooks/useOvertimeData.js:121-130 | The `Map`'s keys in insertion order: never more days than records. `DistinctKeysAreTheDays` proves they are exactly the records' days, each once, and `DistinctKeysSnoc` that a day is added at the end on its first appearance. |
| Records.DistinctKeysAreTheDays | src/hooks/useOvertimeData.js:124 | Every record's day is listed, every listed day has a record, and no day is listed twice. |
| Records.MonthRecords | src/hooks/useOvertimeData.js:107-117 | A record is kept exactly when it is in the log, belongs to the employee and is dated in the given year and month. |
| Records.MonthTotalIsSumOfDays | src/hooks/useOvertimeData.js:107-136 | A kind's monthly total is the sum of each day's value in the whole log. It covers exactly the employee's days that fall in the month. |
| Records.SumResolvedAgree | src/hooks/useOvertimeData.js:135-136 | Two logs that agree on every listed day give the same sum. |
| Records.NoRecordsNoTotal | src/hooks/useOvertimeData.js:113-136 | A month without a record of the employee totals 0. |
| OvertimeData.OvertimeStore.SumDailyIsSumResolved | src/hooks/useOvertimeData.js:135-136 | Summing what `getDailyData` shows for each listed day equals summing the resolved values. |
| OvertimeData.OvertimeStore.MonthTotalIsSumOfDaily | src/hooks/useOvertimeData.js:107-136 | A kind's monthly total equals the sum of `getDailyData` over the employee's days in that month. |
| OvertimeData.OvertimeStore.GetMonthlyStats | src/hooks/useOvertimeData.js:104-143 | Each total is the sum of `GetDailyData` over the employee's distinct days of the month in that log. `remaining` is overtime minus vacation as a signed integer. Negative stored minutes are summed like any others. |
| OvertimeData.OvertimeStore.EmptyMonthIsZero | src/hooks/useOvertimeData.js:138-142 | With no record of the employee in the month, both totals are 0, and so `remaining` is 0. |
| TimeUtils.FormatTime | src/utils/timeUtils.js:2-7 | Read from the end, the text is two digits worth the minutes past the hour, a colon, and before it the whole hours in decimal with no leading zero (so 0 gives "0:00"). |
| TimeUtils.FormatTimeFields | src/utils/timeUtils.js:2-7 | The rendering splits into exactly two fields around one colon. The first is the decimal whole hours, never padded. The second is exactly two digits holding the minutes past the hour. 0 renders as "0:00". |
| TimeUtils.HoursText | src/utils/timeUtils.js:4-6 | The hours part is digits without a leading zero, and reads back as `m / 60`. |
| TimeUtils.MinutesText | src/utils/timeUtils.js:5-6 | The minutes part is exactly two digits, reads back as `m % 60`; it is the `padStart(2, '0')` rendering. Its place after the colon is stated by `FormatTime` and `FormatTimeJoins`. |
| TimeUtils.ParseTimeToMinutes | src/utils/timeUtils.js:9-13 | Blank text parses to 0. |
| TimeUtils.ParseHoursMinutes | src/utils/timeUtils.js:11-12 | "H:M" parses to H*60+M. The minutes are not range-checked, and an empty field counts as 0. |
| TimeUtils.ParseIgnoresLaterFields | src/utils/timeUtils.js:11-12 | Fields after the second are ignored. |
| TimeUtils.ParseHoursOnly | src/utils/timeUtils.js:11-12 | Text without a colon counts as hours only. |
| TimeUtils.ParseFormatRoundTrip | src/utils/timeUtils.js:2-13 | Parsing the rendering of `m` gives `m` back, for every `m >= 0`. |
| TimeUtils.TimeTextFields | src/utils/timeUtils.js:11 | Every field of digits-and-colons text is a digit string. |
| TimeUtils.ConvertTimeToMinutes | src/utils/timeUtils.js:15-17 | Combining hours and minutes equals parsing them joined by a colon, so it is H*60+M and an empty part counts as 0. |
| TimeUtils.PopupRoundTrip | src/components/Dashboard.jsx:182-193 | Opening the popup on a value and saving it unedited stores the same value when it is not negative. A negative value comes back as 0, because both fields start empty. |
| TimeUtils.HoursField | src/components/Dashboard.jsx:182-186 | The hours field reads as the whole hours `Math.floor(value / 60)`, written without a leading zero. It is empty exactly when that is not positive, so a negative value shows nothing. |
| TimeUtils.MinutesField | src/components/Dashboard.jsx:183-187 | The minutes field reads as the minutes past the hour `value % 60`, written without a leading zero. It is empty exactly when the value is not positive or a whole number of hours, since JavaScript's `%` keeps the dividend's sign. |
| JsBuiltins.Trim | src/hooks/useOvertimeData.js:41 | `trim` gives an empty result exactly when the text is blank, and is never longer than the text. |
| JsBuiltins.TrimKeepsMiddle | src/hooks/useOvertimeData.js:41 | What `trim` keeps is a contiguous slice of the text. |
| JsBuiltins.TrimDropsLeadingBlank | src/hooks/useOvertimeData.js:41 | Everything `trim` drops in front is white space. |
| JsBuiltins.TrimDropsTrailingBlank | src/hooks/useOvertimeData.js:41 | Everything `trim` drops at the end is white space. |
| JsBuiltins.TrimKeepsNoBlankEnds | src/hooks/useOvertimeData.js:41 | What `trim` keeps neither starts nor ends with white space. |
| JsBuiltins.TrimBlank | src/utils/timeUtils.js:10 | Trimming leaves nothing exactly when the text is blank. |
| JsBuiltins.TrimStart | src/utils/timeUtils.js:10 | The result is a suffix of the text, preceded only by white space and not starting with it. |
| JsBuiltins.TrimEnd | src/utils/timeUtils.js:10 | The result is a prefix of the text, followed only by white space and not ending with it. |
| JsBuiltins.Split | src/utils/timeUtils.js:11 | `split` always gives at least one piece. No piece contains the separator, and every character of a piece comes from the text. |
| JsBuiltins.JoinSplit | src/utils/timeUtils.js:11 | Joining the pieces with the separator gives the text back. |
| JsBuiltins.SplitNoSeparator | src/utils/timeUtils.js:11 | Text without the separator splits into itself. |
| JsBuiltins.SplitFirst | src/utils/timeUtils.js:11 | The first separator ends the first piece. |
| JsBuiltins.SplitDigitFields | src/utils/timeUtils.js:11 | Two digit strings joined by a non-digit split back into the two. |
| JsBuiltins.ParseDigits | src/utils/timeUtils.js:12 | `parseInt` of a digit string, the empty string falling back to 0: its decimal value. `ParseNatToString` and `ParseLeadingZero` state what it reads. |
| JsBuiltins.NatToString | src/utils/timeUtils.js:6 | `toString` of a non-negative integer gives at least one digit, with a leading zero only for 0, and a single digit exactly below 10. |
| JsBuiltins.ParseNatToString | src/utils/timeUtils.js:6 | Reading a rendering back gives the number. |
| JsBuiltins.PadStart | src/utils/timeUtils.js:6 | `padStart` reaches the width, ends with the original text, and is preceded only by the fill character. |
| JsBuiltins.ParseLeadingZero | src/utils/timeUtils.js:12 | A leading zero does not change the value `parseInt` reads. |

## Left out

- Persistence (`localStorage` load and save, JSON, and the logged-and-swallowed errors) is I/O. The model's state is the three in-memory sequences.
- React plumbing is not modelled: `useState`, `useCallback`, functional state updaters and stale closures. Each operation is a sequential method on one object.
- The clock and random ids are parameters. Each read of the clock is its own parameter: `addEmployee` reads it twice, once for the id (`Date.now()`) and once for `createdAt` (`new Date()`), and the two may differ. The record id `Date.now() + Math.random()` becomes an integer `recordId`; its fractional part is not modelled. ISO `createdAt` strings parsed by `new Date` become integer timestamps.
- OvertimeData.OvertimeStore.AddEmployee: does not promise distinct ids, because the code does not check for a clash. `Records.AppendFreshKeepsDistinct` states when they stay distinct.
- OvertimeData.OvertimeStore.UpdateDailyTime: the method's contract does not repeat that other days keep their value. `Records.AppendOtherDayKeeps` states this about the appended log.
- OvertimeData.OvertimeStore.GetMonthlyStats: takes the month as a (year, month) pair of integers, not the `"YYYY-MM"` string. A record is in the month when its date has that year and month. The code parses `"YYYY-MM-DD"` as UTC and reads the local year and month, so near a month boundary its result depends on the host time zone. The code also compares the month as text, so a selector month written without its leading zero matches nothing. Neither effect is modelled.
- The day key `${employeeId}-${date}` of `calculateLatestTotals` is modelled as a pair. Distinct pairs whose texts coincide are not modelled.
- TimeUtils.ParseTimeToMinutes: accepts only blank text or text made of digits and colons. `parseInt`'s `NaN`, signs, hexadecimal prefixes, trailing junk and `null`/`undefined` input are not modelled.
- TimeUtils.ConvertTimeToMinutes: takes digit strings only, for the same reason.
- TimeUtils.PopupRoundTrip: the save path reads the fields as digit strings. A typed sign ("-1" in the hours field) makes the code store a negative value; `UpdateDailyTime` accepts any integer, but the popup's reading of a sign is not modelled.
- Records.Select: the function's own contract states which elements are kept and a length bound. The multiplicities (`SelectCounts`) and the order (`SelectAppend`) are separate lemmas, because as `ensures` clauses they made every proof that uses `Select` too costly.
- Records.SortByNewest: does not state stability for every run of equal timestamps. Only the part `getDailyData` reads is proved: the head is the earliest-inserted of the newest records (`NewestFirstIsLatest`).
- TimeUtils.FormatTime: takes a non-negative integer. The code's `null`/`undefined` input (rendered "0:00") and negative or fractional input are not modelled. Only the remaining column passes `Math.abs` (src/components/Dashboard.jsx:110). The day cells and the two totals (src/components/Dashboard.jsx:45, :102, :105) pass the raw value, which is negative once a negative number of minutes has been stored; the code then renders, for example, -30 as "-1:-30". This rendering is not modelled.
- Numbers are unbounded integers. Floating-point precision for very large values is not modelled.
- The `employeeName` copied into each record is kept as an opaque copy of the name found by the lookup. Nothing reads it back.
- The screens are not part of this model: src/components/Dashboard.jsx, src/components/EmployeeManagement.jsx and src/App.jsx. The exception is the time-entry popup's fields and round trip (`TimeUtils.HoursField`, `TimeUtils.MinutesField`, `TimeUtils.PopupRoundTrip`). The non-empty-name check lives only in the screens, so `AddEmployee` has no failure case.

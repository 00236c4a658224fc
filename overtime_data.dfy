/**
 * The state of the `useOvertimeData` hook (src/hooks/useOvertimeData.js): the
 * employee directory and the two append-only logs, with the operations the
 * screens call. Each operation replaces a list by an updated copy, which is
 * modelled as assigning the field.
 */
module OvertimeData {
  import opened JsBuiltins
  import opened Records

  /** What `getMonthlyStats` returns; every field may be negative, since
      nothing stops a negative number of minutes from being stored. */
  datatype MonthlyStats = MonthlyStats(totalOvertime: int, totalVacation: int, remaining: int)

  class OvertimeStore {
    var employees: seq<Employee>
    var overtimeRecords: seq<TimeRecord>
    var vacationRecords: seq<TimeRecord>

    /** A store with nothing loaded yet. */
    constructor ()
      ensures employees == [] && overtimeRecords == [] && vacationRecords == []
    {
      employees := [];
      overtimeRecords := [];
      vacationRecords := [];
    }

    /** The log a `type` argument selects. */
    function Log(kind: Kind): seq<TimeRecord>
      reads this
    {
      if kind == Overtime then overtimeRecords else vacationRecords
    }

    /** `addEmployee`: appends an entry with the trimmed name. Its id and its
        creation time are two separate reads of the clock (`Date.now()` and
        `new Date()`), so they are two parameters that may differ. Nothing
        checks that the id is new: ids stay distinct only when the clock has
        moved on (`AppendFreshKeepsDistinct`). */
    method AddEmployee(name: string, id: EmployeeId, now: Timestamp) returns (e: Employee)
      modifies this
      ensures e == Employee(id, Trim(name), now)
      ensures employees == old(employees) + [e]
      ensures overtimeRecords == old(overtimeRecords) && vacationRecords == old(vacationRecords)
    {
      e := Employee(id, Trim(name), now);
      employees := employees + [e];
    }

    /** `updateEmployee`: renames every entry with that id; an unknown id
        leaves the directory as it was. */
    method UpdateEmployee(id: EmployeeId, name: string)
      modifies this
      ensures employees == Renamed(old(employees), id, Trim(name))
      ensures !old(IsKnown(employees, id)) ==> employees == old(employees)
      ensures old(DistinctIds(employees)) ==> DistinctIds(employees)
      ensures overtimeRecords == old(overtimeRecords) && vacationRecords == old(vacationRecords)
    {
      if DistinctIds(employees) {
        RenamedKeepsDistinct(employees, id, Trim(name));
      }
      employees := Renamed(employees, id, Trim(name));
    }

    /** `deleteEmployee`: drops every entry with that id; the employee's
        records stay in both logs. */
    method DeleteEmployee(id: EmployeeId)
      modifies this
      ensures employees == WithoutEmployee(old(employees), id)
      ensures forall i :: 0 <= i < |employees| ==> employees[i].id != id
      ensures forall e :: e in employees <==> e in old(employees) && e.id != id
      ensures old(DistinctIds(employees)) ==> DistinctIds(employees)
      ensures overtimeRecords == old(overtimeRecords) && vacationRecords == old(vacationRecords)
    {
      if DistinctIds(employees) {
        WithoutEmployeeKeepsDistinct(employees, id);
      }
      employees := WithoutEmployee(employees, id);
    }

    /** `updateDailyTime`: for a known employee, appends to the chosen log a
        record holding the day's new full value, a copy of the employee's
        current name and the current time; for an unknown id it does
        nothing. The new value decides the day whenever it is newer than
        every earlier record of that day; no other day changes
        (`AppendOtherDayKeeps`). */
    method UpdateDailyTime(kind: Kind, employeeId: EmployeeId, date: Date, totalMinutes: int,
                           recordId: int, now: Timestamp)
      modifies this
      ensures employees == old(employees)
      ensures !IsKnown(employees, employeeId) ==>
        overtimeRecords == old(overtimeRecords) && vacationRecords == old(vacationRecords)
      ensures IsKnown(employees, employeeId) ==>
        var rec := TimeRecord(recordId, employeeId, FindEmployee(employees, employeeId).value.name,
                              date, totalMinutes, now);
        && Log(kind) == old(Log(kind)) + [rec]
        && Log(if kind == Overtime then Vacation else Overtime) == old(Log(if kind == Overtime then Vacation else Overtime))
      ensures IsKnown(employees, employeeId)
              && (forall j :: 0 <= j < |old(Log(kind))| && Matches(old(Log(kind))[j], employeeId, date) ==>
                    old(Log(kind))[j].createdAt < now)
              ==> GetDailyData(employeeId, date, kind) == totalMinutes
    {
      var employee := FindEmployee(employees, employeeId);
      if employee.None? {
        return;
      }
      var rec := TimeRecord(recordId, employeeId, employee.value.name, date, totalMinutes, now);
      ghost var log := Log(kind);
      if kind == Overtime {
        overtimeRecords := overtimeRecords + [rec];
      } else {
        vacationRecords := vacationRecords + [rec];
      }
      assert Log(kind) == log + [rec];
      if forall j :: 0 <= j < |log| && Matches(log[j], employeeId, date) ==> log[j].createdAt < now {
        AppendNewerWins(log, rec);
      }
    }

    /** `getDailyData`: the minutes of the newest record of that employee's
        day in the chosen log, found by a stable newest-first sort, or 0 when
        the day has none. It is the value the deciding record holds. */
    function GetDailyData(employeeId: EmployeeId, date: Date, kind: Kind := Overtime): (minutes: int)
      reads this
      ensures minutes == ResolvedMinutes(Log(kind), employeeId, date)
      ensures !HasRecord(Log(kind), employeeId, date) ==> minutes == 0
      ensures forall k :: IsLatest(Log(kind), k, employeeId, date) ==> minutes == Log(kind)[k].totalMinutes
    {
      NewestFirstIsLatest(Log(kind), employeeId, date);
      var dayRecords := SortByNewest(Select(Log(kind), SameDay(employeeId, date)));
      if dayRecords == [] then 0 else dayRecords[0].totalMinutes
    }

    /** The sum of what `getDailyData` shows for each of the listed days. */
    function SumDaily(keys: seq<DayKey>, kind: Kind): int
      reads this
    {
      if keys == [] then 0
      else
        var n := |keys| - 1;
        SumDaily(keys[..n], kind) + GetDailyData(keys[n].employeeId, keys[n].date, kind)
    }

    /** Summing the shown daily values is summing the days' resolved values. */
    lemma {:induction false} SumDailyIsSumResolved(keys: seq<DayKey>, kind: Kind)
      ensures SumDaily(keys, kind) == SumResolved(Log(kind), keys)
    {
      if keys != [] {
        SumDailyIsSumResolved(keys[..|keys| - 1], kind);
      }
    }

    /** A kind's monthly total is the sum of the values `getDailyData` shows
        for the employee's days of that month. */
    lemma MonthTotalIsSumOfDaily(kind: Kind, employeeId: EmployeeId, year: int, month: int)
      ensures var records := MonthRecords(Log(kind), employeeId, year, month);
        LatestTotal(records) == SumDaily(DistinctKeys(records), kind)
    {
      MonthTotalIsSumOfDays(Log(kind), employeeId, year, month);
      SumDailyIsSumResolved(DistinctKeys(MonthRecords(Log(kind), employeeId, year, month)), kind);
    }

    /** With no record of the employee dated in the month, both totals that
        `getMonthlyStats` reports are 0, and so is `remaining`. */
    lemma EmptyMonthIsZero(employeeId: EmployeeId, year: int, month: int)
      requires forall r :: r in overtimeRecords && r.employeeId == employeeId ==> r.date.year != year || r.date.month != month
      requires forall r :: r in vacationRecords && r.employeeId == employeeId ==> r.date.year != year || r.date.month != month
      ensures SumDaily(DistinctKeys(MonthRecords(overtimeRecords, employeeId, year, month)), Overtime) == 0
      ensures SumDaily(DistinctKeys(MonthRecords(vacationRecords, employeeId, year, month)), Vacation) == 0
    {
      NoRecordsNoTotal(overtimeRecords, employeeId, year, month);
      NoRecordsNoTotal(vacationRecords, employeeId, year, month);
      MonthTotalIsSumOfDaily(Overtime, employeeId, year, month);
      MonthTotalIsSumOfDaily(Vacation, employeeId, year, month);
    }

    /** `getMonthlyStats`: per kind, the records of the month and of the
        employee, counted once per day through that day's deciding record;
        `remaining` is overtime minus vacation. Each day counts with the
        value `getDailyData` shows for it, and only days of that employee in
        that month count (`MonthTotalIsSumOfDays`); with no record in the
        month the totals are 0 (`EmptyMonthIsZero`). */
    method GetMonthlyStats(employeeId: EmployeeId, year: int, month: int) returns (stats: MonthlyStats)
      ensures stats.totalOvertime == SumDaily(DistinctKeys(MonthRecords(overtimeRecords, employeeId, year, month)), Overtime)
      ensures stats.totalVacation == SumDaily(DistinctKeys(MonthRecords(vacationRecords, employeeId, year, month)), Vacation)
      ensures stats.remaining == stats.totalOvertime - stats.totalVacation
    {
      var monthlyOvertime := Select(overtimeRecords, SameMonth(year, month));
      var monthlyVacation := Select(vacationRecords, SameMonth(year, month));
      var employeeOvertime := Select(monthlyOvertime, SameEmployee(employeeId));
      var employeeVacation := Select(monthlyVacation, SameEmployee(employeeId));
      var totalOvertimeMinutes := CalculateLatestTotals(employeeOvertime);
      var totalVacationMinutes := CalculateLatestTotals(employeeVacation);
      stats := MonthlyStats(totalOvertimeMinutes, totalVacationMinutes, totalOvertimeMinutes - totalVacationMinutes);
      MonthTotalIsSumOfDaily(Overtime, employeeId, year, month);
      MonthTotalIsSumOfDaily(Vacation, employeeId, year, month);
    }
  }
}

/**
 * The values of the overtime/vacation engine (src/hooks/useOvertimeData.js)
 * and the pure parts of its queries: the employee directory's entries, the
 * per-kind record logs, the record that decides a day's value (latest
 * `createdAt`, earliest-inserted among equals), the stable newest-first sort
 * `getDailyData` relies on, and the per-month, per-day totals that
 * `getMonthlyStats` computes.
 */
module Records {

  datatype Option<T> = None | Some(value: T)

  /** The two parallel record streams; any `type` other than 'overtime'
      selects the vacation log. */
  datatype Kind = Overtime | Vacation

  /** A calendar day ("YYYY-MM-DD"), compared field by field. */
  datatype Date = Date(year: int, month: int, day: int)

  /** Identifiers and timestamps are milliseconds since the epoch. */
  type EmployeeId = int
  type Timestamp = int

  datatype Employee = Employee(id: EmployeeId, name: string, createdAt: Timestamp)

  /** One entry of a log: the full value of that day (not a delta), with a
      copy of the employee's name at the time of writing. The minutes are
      stored as given, negative ones included. */
  datatype TimeRecord = TimeRecord(
    id: int,
    employeeId: EmployeeId,
    employeeName: string,
    date: Date,
    totalMinutes: int,
    createdAt: Timestamp)

  // ---------------------------------------------------------------------
  // The employee directory

  predicate DistinctIds(employees: seq<Employee>) {
    forall i, j :: 0 <= i < j < |employees| ==> employees[i].id != employees[j].id
  }

  predicate IsKnown(employees: seq<Employee>, id: EmployeeId) {
    exists i :: 0 <= i < |employees| && employees[i].id == id
  }

  /** `employees.find(emp => emp.id === id)`: the first entry with that id. */
  function FindEmployee(employees: seq<Employee>, id: EmployeeId): (r: Option<Employee>)
    ensures r.None? <==> !IsKnown(employees, id)
    ensures r.Some? ==> exists k :: 0 <= k < |employees| && employees[k] == r.value
                         && r.value.id == id
                         && forall j :: 0 <= j < k ==> employees[j].id != id
  {
    if employees == [] then None
    else if employees[0].id == id then Some(employees[0])
    else
      var r := FindEmployee(employees[1..], id);
      assert IsKnown(employees[1..], id) ==> IsKnown(employees, id) by {
        if IsKnown(employees[1..], id) {
          var i :| 0 <= i < |employees[1..]| && employees[1..][i].id == id;
          assert employees[i + 1].id == id;
        }
      }
      assert IsKnown(employees, id) ==> IsKnown(employees[1..], id) by {
        if IsKnown(employees, id) {
          var i :| 0 <= i < |employees| && employees[i].id == id;
          assert i > 0 && employees[1..][i - 1].id == id;
        }
      }
      if r.Some? then
        var k :| 0 <= k < |employees[1..]| && employees[1..][k] == r.value
                 && forall j :: 0 <= j < k ==> employees[1..][j].id != id;
        assert employees[k + 1] == r.value;
        assert forall j :: 0 <= j < k + 1 ==> employees[j].id != id by {
          forall j | 0 <= j < k + 1 ensures employees[j].id != id {
            if j > 0 { assert employees[j] == employees[1..][j - 1]; }
          }
        }
        r
      else
        r
  }

  /** Appending an entry whose id is not in use keeps ids distinct. */
  lemma AppendFreshKeepsDistinct(employees: seq<Employee>, e: Employee)
    requires DistinctIds(employees) && !IsKnown(employees, e.id)
    ensures DistinctIds(employees + [e])
  {
    var r := employees + [e];
    forall i, j | 0 <= i < j < |r| ensures r[i].id != r[j].id {
      assert r[i] == employees[i];
      if j < |employees| { assert r[j] == employees[j]; }
    }
  }

  /** `employees.map(emp => emp.id === id ? { ...emp, name } : emp)`: every
      entry with that id gets the new name and keeps its id and creation
      time; the others stay as they are. */
  function Renamed(employees: seq<Employee>, id: EmployeeId, name: string): (r: seq<Employee>)
    ensures |r| == |employees|
    ensures forall i :: 0 <= i < |r| ==> r[i].id == employees[i].id && r[i].createdAt == employees[i].createdAt
    ensures forall i :: 0 <= i < |r| ==> r[i].name == if employees[i].id == id then name else employees[i].name
    ensures !IsKnown(employees, id) ==> r == employees
  {
    seq(|employees|, i requires 0 <= i < |employees| =>
      if employees[i].id == id then employees[i].(name := name) else employees[i])
  }

  /** Renaming keeps ids distinct. */
  lemma RenamedKeepsDistinct(employees: seq<Employee>, id: EmployeeId, name: string)
    requires DistinctIds(employees)
    ensures DistinctIds(Renamed(employees, id, name))
  {
  }

  /** After a rename, looking the id up finds the same entry under the new name. */
  lemma {:induction false} RenamedThenFind(employees: seq<Employee>, id: EmployeeId, name: string)
    requires IsKnown(employees, id)
    ensures var before := FindEmployee(employees, id);
      before.Some? && FindEmployee(Renamed(employees, id, name), id) == Some(before.value.(name := name))
  {
    var r := Renamed(employees, id, name);
    var before := FindEmployee(employees, id);
    var k :| 0 <= k < |employees| && employees[k] == before.value && before.value.id == id
             && forall j :: 0 <= j < k ==> employees[j].id != id;
    assert IsKnown(r, id) by { assert r[k].id == id; }
    var after := FindEmployee(r, id);
    var k' :| 0 <= k' < |r| && r[k'] == after.value && after.value.id == id
              && forall j :: 0 <= j < k' ==> r[j].id != id;
    assert k == k';
  }

  /** `employees.filter(emp => emp.id !== id)`. */
  function WithoutEmployee(employees: seq<Employee>, id: EmployeeId): (r: seq<Employee>)
    ensures |r| <= |employees|
    ensures forall i :: 0 <= i < |r| ==> r[i].id != id
    ensures forall e :: e in r <==> e in employees && e.id != id
    ensures !IsKnown(employees, id) ==> r == employees
  {
    if employees == [] then []
    else
      var rest := WithoutEmployee(employees[1..], id);
      KnownInTail(employees, id);
      assert employees == [employees[0]] + employees[1..];
      if employees[0].id == id then rest else [employees[0]] + rest
  }

  /** Deleting from two lists joined is deleting from each: the entries that
      stay keep their order. */
  lemma {:induction false} WithoutEmployeeAppend(a: seq<Employee>, b: seq<Employee>, id: EmployeeId)
    ensures WithoutEmployee(a + b, id) == WithoutEmployee(a, id) + WithoutEmployee(b, id)
  {
    if a != [] {
      assert (a + b)[0] == a[0] && (a + b)[1..] == a[1..] + b;
      WithoutEmployeeAppend(a[1..], b, id);
    } else {
      assert a + b == b;
    }
  }

  lemma KnownInTail(employees: seq<Employee>, id: EmployeeId)
    requires employees != []
    ensures IsKnown(employees, id) <==> employees[0].id == id || IsKnown(employees[1..], id)
  {
    if IsKnown(employees[1..], id) {
      var i :| 0 <= i < |employees[1..]| && employees[1..][i].id == id;
      assert employees[i + 1].id == id;
    }
    if IsKnown(employees, id) && employees[0].id != id {
      var i :| 0 <= i < |employees| && employees[i].id == id;
      assert employees[1..][i - 1].id == id;
    }
  }

  /** With distinct ids, deleting a known id takes out exactly that entry and
      keeps the others in their order. */
  lemma {:induction false} WithoutEmployeeRemovesOne(employees: seq<Employee>, k: nat)
    requires DistinctIds(employees)
    requires k < |employees|
    ensures WithoutEmployee(employees, employees[k].id) == employees[..k] + employees[k + 1..]
  {
    var id := employees[k].id;
    var pre, post := employees[..k], employees[k + 1..];
    assert employees == pre + ([employees[k]] + post);
    WithoutEmployeeAppend(pre, [employees[k]] + post, id);
    WithoutEmployeeAppend([employees[k]], post, id);
    OnlyOneHasId(employees, k);
    assert [employees[k]][1..] == [];
  }

  /** With distinct ids, no entry before or after entry `k` has its id. */
  lemma OnlyOneHasId(employees: seq<Employee>, k: nat)
    requires DistinctIds(employees) && k < |employees|
    ensures !IsKnown(employees[..k], employees[k].id)
    ensures !IsKnown(employees[k + 1..], employees[k].id)
  {
    var pre, post := employees[..k], employees[k + 1..];
    forall i | 0 <= i < |pre| ensures pre[i].id != employees[k].id {
      assert pre[i] == employees[i];
    }
    forall i | 0 <= i < |post| ensures post[i].id != employees[k].id {
      assert post[i] == employees[k + 1 + i];
    }
  }

  /** Renaming and deleting keep ids distinct. */
  lemma WithoutEmployeeKeepsDistinct(employees: seq<Employee>, id: EmployeeId)
    requires DistinctIds(employees)
    ensures DistinctIds(WithoutEmployee(employees, id))
  {
    if IsKnown(employees, id) {
      var k :| 0 <= k < |employees| && employees[k].id == id;
      WithoutEmployeeRemovesOne(employees, k);
      RemoveKeepsDistinct(employees, k);
    }
  }

  /** Taking one entry out keeps ids distinct. */
  lemma RemoveKeepsDistinct(employees: seq<Employee>, k: nat)
    requires DistinctIds(employees) && k < |employees|
    ensures DistinctIds(employees[..k] + employees[k + 1..])
  {
    var r := employees[..k] + employees[k + 1..];
    forall i, j | 0 <= i < j < |r| ensures r[i].id != r[j].id {
      if j < k {
        assert r[i] == employees[i] && r[j] == employees[j];
      } else if i < k {
        assert r[i] == employees[i] && r[j] == employees[j + 1];
      } else {
        assert r[i] == employees[i + 1] && r[j] == employees[j + 1];
      }
    }
  }

  // ---------------------------------------------------------------------
  // Resolving one day's value

  predicate Matches(r: TimeRecord, employeeId: EmployeeId, date: Date) {
    r.employeeId == employeeId && r.date == date
  }

  predicate HasRecord(log: seq<TimeRecord>, employeeId: EmployeeId, date: Date) {
    exists j :: 0 <= j < |log| && Matches(log[j], employeeId, date)
  }

  /** `log[k]` decides the value of (employeeId, date): it is for that day, no
      record for that day is newer, and every record for that day inserted
      before it is strictly older (so among equal timestamps the
      earliest-inserted one decides). */
  ghost predicate IsLatest(log: seq<TimeRecord>, k: int, employeeId: EmployeeId, date: Date) {
    && 0 <= k < |log|
    && Matches(log[k], employeeId, date)
    && (forall j :: 0 <= j < |log| && Matches(log[j], employeeId, date) ==> log[j].createdAt <= log[k].createdAt)
    && (forall j :: 0 <= j < k && Matches(log[j], employeeId, date) ==> log[j].createdAt < log[k].createdAt)
  }

  /** At most one record decides a day. */
  lemma LatestIsUnique(log: seq<TimeRecord>, k1: int, k2: int, employeeId: EmployeeId, date: Date)
    requires IsLatest(log, k1, employeeId, date) && IsLatest(log, k2, employeeId, date)
    ensures k1 == k2
  {
  }

  /** The index of the deciding record, found by one pass over the log that
      replaces the candidate only on a strictly newer timestamp (the `Map`
      update of `calculateLatestTotals`); -1 when the day has no record.
      `LatestIndexIsLatest` shows that this is the record `IsLatest` names. */
  function LatestIndex(log: seq<TimeRecord>, employeeId: EmployeeId, date: Date): (k: int)
    ensures -1 <= k < |log|
    ensures k != -1 ==> Matches(log[k], employeeId, date)
  {
    if log == [] then -1
    else
      var n := |log| - 1;
      var k := LatestIndex(log[..n], employeeId, date);
      if Matches(log[n], employeeId, date) && (k == -1 || log[n].createdAt > log[k].createdAt) then n
      else k
  }

  /** One more record at the end replaces the candidate only when it is for
      the day and strictly newer. */
  lemma LatestIndexSnoc(log: seq<TimeRecord>, x: TimeRecord, employeeId: EmployeeId, date: Date)
    ensures var k := LatestIndex(log, employeeId, date);
      LatestIndex(log + [x], employeeId, date)
        == if Matches(x, employeeId, date) && (k == -1 || x.createdAt > log[k].createdAt) then |log| else k
  {
    assert (log + [x])[..|log|] == log;
  }

  /** The one-pass search finds the deciding record, and finds none exactly
      when the day has no record. */
  lemma {:induction false} LatestIndexIsLatest(log: seq<TimeRecord>, employeeId: EmployeeId, date: Date)
    ensures var k := LatestIndex(log, employeeId, date);
      && (k == -1 <==> !HasRecord(log, employeeId, date))
      && (k != -1 ==> IsLatest(log, k, employeeId, date))
  {
    if log != [] {
      var n := |log| - 1;
      var pre := log[..n];
      assert log == pre + [log[n]];
      LatestIndexIsLatest(pre, employeeId, date);
      LatestIndexSnoc(pre, log[n], employeeId, date);
      LatestStep(pre, log[n], employeeId, date);
    }
  }

  /** The induction step of `LatestIndexIsLatest`. */
  lemma LatestStep(pre: seq<TimeRecord>, x: TimeRecord, employeeId: EmployeeId, date: Date)
    requires var k := LatestIndex(pre, employeeId, date);
      && (k == -1 <==> !HasRecord(pre, employeeId, date))
      && (k != -1 ==> IsLatest(pre, k, employeeId, date))
    ensures var k := LatestIndex(pre, employeeId, date);
      var k' := if Matches(x, employeeId, date) && (k == -1 || x.createdAt > pre[k].createdAt) then |pre| else k;
      && (k' == -1 <==> !HasRecord(pre + [x], employeeId, date))
      && (k' != -1 ==> IsLatest(pre + [x], k', employeeId, date))
  {
    var log := pre + [x];
    assert forall j :: 0 <= j < |pre| ==> log[j] == pre[j];
    assert log[|pre|] == x;
    if HasRecord(log, employeeId, date) && !Matches(x, employeeId, date) {
      var j :| 0 <= j < |log| && Matches(log[j], employeeId, date);
      assert j < |pre| && Matches(pre[j], employeeId, date);
    }
  }

  /** The value of the day: the deciding record's minutes, 0 without one. */
  function ResolvedMinutes(log: seq<TimeRecord>, employeeId: EmployeeId, date: Date): (m: int)
    ensures !HasRecord(log, employeeId, date) ==> m == 0
    ensures forall k :: IsLatest(log, k, employeeId, date) ==> m == log[k].totalMinutes
  {
    LatestIndexIsLatest(log, employeeId, date);
    var k := LatestIndex(log, employeeId, date);
    if k == -1 then 0 else log[k].totalMinutes
  }

  /** A record for the day that is newer than every earlier one decides it,
      whatever the earlier values were (a correction, or 0 for a deletion). */
  lemma {:induction false} AppendNewerWins(log: seq<TimeRecord>, rec: TimeRecord)
    requires forall j :: 0 <= j < |log| && Matches(log[j], rec.employeeId, rec.date) ==> log[j].createdAt < rec.createdAt
    ensures ResolvedMinutes(log + [rec], rec.employeeId, rec.date) == rec.totalMinutes
  {
    LatestIndexSnoc(log, rec, rec.employeeId, rec.date);
    LatestIndexIsLatest(log, rec.employeeId, rec.date);
  }

  /** A record for the day that is no newer than the current deciding one
      changes nothing: on equal timestamps the earlier record keeps winning. */
  lemma {:induction false} AppendNotNewerKeeps(log: seq<TimeRecord>, rec: TimeRecord)
    requires exists j :: 0 <= j < |log| && Matches(log[j], rec.employeeId, rec.date) && rec.createdAt <= log[j].createdAt
    ensures ResolvedMinutes(log + [rec], rec.employeeId, rec.date) == ResolvedMinutes(log, rec.employeeId, rec.date)
  {
    LatestIndexSnoc(log, rec, rec.employeeId, rec.date);
    LatestIndexIsLatest(log, rec.employeeId, rec.date);
    var k := LatestIndex(log, rec.employeeId, rec.date);
    assert (log + [rec])[..|log|] == log;
    assert k != -1 && (log + [rec])[k] == log[k];
  }

  /** A record for another employee or another day changes nothing. */
  lemma {:induction false} AppendOtherDayKeeps(log: seq<TimeRecord>, rec: TimeRecord, employeeId: EmployeeId, date: Date)
    requires !Matches(rec, employeeId, date)
    ensures ResolvedMinutes(log + [rec], employeeId, date) == ResolvedMinutes(log, employeeId, date)
  {
    LatestIndexSnoc(log, rec, employeeId, date);
    var k := LatestIndex(log, employeeId, date);
    assert k != -1 ==> (log + [rec])[k] == log[k];
  }

  // ---------------------------------------------------------------------
  // The newest-first sort of `getDailyData`

  /** Places a record that came later in the input into a newest-first list:
      after every record at least as new, before the first strictly older. */
  function InsertByNewest(sorted: seq<TimeRecord>, x: TimeRecord): (r: seq<TimeRecord>)
    ensures multiset(r) == multiset(sorted) + multiset{x}
    ensures |r| == |sorted| + 1
  {
    if sorted == [] || sorted[0].createdAt < x.createdAt then [x] + sorted
    else
      var rest := InsertByNewest(sorted[1..], x);
      assert sorted == [sorted[0]] + sorted[1..];
      [sorted[0]] + rest
  }

  predicate NewestFirst(s: seq<TimeRecord>) {
    forall i, j :: 0 <= i < j < |s| ==> s[i].createdAt >= s[j].createdAt
  }

  /** Inserting keeps the list newest first, and the new record goes in
      front only when strictly newer than the old front. */
  lemma {:induction false} InsertKeepsNewestFirst(sorted: seq<TimeRecord>, x: TimeRecord)
    requires NewestFirst(sorted)
    ensures NewestFirst(InsertByNewest(sorted, x))
    ensures InsertByNewest(sorted, x)[0] == if sorted == [] || sorted[0].createdAt < x.createdAt then x else sorted[0]
  {
    if !(sorted == [] || sorted[0].createdAt < x.createdAt) {
      var tail := sorted[1..];
      assert NewestFirst(tail) by {
        forall i, j | 0 <= i < j < |tail| ensures tail[i].createdAt >= tail[j].createdAt {
          assert tail[i] == sorted[i + 1] && tail[j] == sorted[j + 1];
        }
      }
      InsertKeepsNewestFirst(tail, x);
      var rest := InsertByNewest(tail, x);
      var r := [sorted[0]] + rest;
      assert rest[0] == x || rest[0] == sorted[1];
      forall i, j | 0 <= i < j < |r| ensures r[i].createdAt >= r[j].createdAt {
        if i > 0 {
          assert r[i] == rest[i - 1] && r[j] == rest[j - 1];
        } else {
          assert r[j] == rest[j - 1];
          assert rest[j - 1].createdAt <= rest[0].createdAt;
        }
      }
    }
  }

  /** `records.sort((a, b) => b.createdAt - a.createdAt)`: a stable sort
      (as Array.prototype.sort is required to be since ECMAScript 2019),
      newest first. This contract states the permutation and the order; of
      the stability, only what `getDailyData` reads is proved: the head is
      the earliest-inserted of the newest records (`NewestFirstIsLatest`). */
  function SortByNewest(records: seq<TimeRecord>): (r: seq<TimeRecord>)
    ensures multiset(r) == multiset(records)
    ensures |r| == |records|
    ensures NewestFirst(r)
  {
    if records == [] then []
    else
      var n := |records| - 1;
      assert records == records[..n] + [records[n]];
      InsertKeepsNewestFirst(SortByNewest(records[..n]), records[n]);
      InsertByNewest(SortByNewest(records[..n]), records[n])
  }

  // ---------------------------------------------------------------------
  // Selecting records

  /** The conditions the engine filters records by. */
  datatype Selector =
    | SameDay(employeeId: EmployeeId, date: Date)
    | SameMonth(year: int, month: int)
    | SameEmployee(employeeId: EmployeeId)

  predicate Selects(s: Selector, r: TimeRecord) {
    match s
    case SameDay(e, d) => Matches(r, e, d)
    case SameMonth(y, m) => r.date.year == y && r.date.month == m
    case SameEmployee(e) => r.employeeId == e
  }

  /** `records.filter(...)` with one of the engine's conditions. */
  function Select(records: seq<TimeRecord>, s: Selector): (r: seq<TimeRecord>)
    ensures |r| <= |records|
    ensures forall x :: x in r <==> x in records && Selects(s, x)
  {
    if records == [] then []
    else
      var n := |records| - 1;
      assert records == records[..n] + [records[n]];
      Select(records[..n], s) + (if Selects(s, records[n]) then [records[n]] else [])
  }

  /** Selecting keeps every record that meets the condition as many times as
      it occurs, and no other. */
  lemma {:induction false} SelectCounts(records: seq<TimeRecord>, s: Selector)
    ensures forall x :: multiset(Select(records, s))[x] == if Selects(s, x) then multiset(records)[x] else 0
  {
    if records != [] {
      var n := |records| - 1;
      assert records == records[..n] + [records[n]];
      SelectCounts(records[..n], s);
    }
  }

  /** Selecting from two logs joined is selecting from each: the records
      that stay keep their order. */
  lemma {:induction false} SelectAppend(a: seq<TimeRecord>, b: seq<TimeRecord>, s: Selector)
    ensures Select(a + b, s) == Select(a, s) + Select(b, s)
  {
    if b == [] {
      assert a + b == a;
    } else {
      var n := |b| - 1;
      var last := if Selects(s, b[n]) then [b[n]] else [];
      calc {
        Select(a + b, s);
        == { assert a + b == (a + b[..n]) + [b[n]]; SelectSnoc(a + b[..n], b[n], s); }
        Select(a + b[..n], s) + last;
        == { SelectAppend(a, b[..n], s); }
        (Select(a, s) + Select(b[..n], s)) + last;
        == Select(a, s) + (Select(b[..n], s) + last);
        == { assert b == b[..n] + [b[n]]; SelectSnoc(b[..n], b[n], s); }
        Select(a, s) + Select(b, s);
      }
    }
  }

  /** A condition no record meets selects nothing. */
  lemma {:induction false} SelectNone(records: seq<TimeRecord>, s: Selector)
    requires forall i :: 0 <= i < |records| ==> !Selects(s, records[i])
    ensures Select(records, s) == []
  {
    if records != [] {
      SelectNone(records[..|records| - 1], s);
    }
  }

  /** Selecting keeps the deciding record of every day the condition lets
      through whole. */
  lemma {:induction false} SelectKeepsLatest(log: seq<TimeRecord>, s: Selector, employeeId: EmployeeId, date: Date)
    requires forall r :: Matches(r, employeeId, date) ==> Selects(s, r)
    ensures var sub := Select(log, s);
      var k, k' := LatestIndex(log, employeeId, date), LatestIndex(sub, employeeId, date);
      && (k == -1 <==> k' == -1)
      && (k != -1 ==> sub[k'] == log[k])
    ensures ResolvedMinutes(Select(log, s), employeeId, date) == ResolvedMinutes(log, employeeId, date)
  {
    if log != [] {
      var n := |log| - 1;
      assert log == log[..n] + [log[n]];
      SelectKeepsLatest(log[..n], s, employeeId, date);
      SelectKeepsLatestStep(log[..n], log[n], s, employeeId, date);
    }
  }

  /** The induction step of `SelectKeepsLatest`. */
  lemma SelectKeepsLatestStep(pre: seq<TimeRecord>, x: TimeRecord, s: Selector, employeeId: EmployeeId, date: Date)
    requires forall r :: Matches(r, employeeId, date) ==> Selects(s, r)
    requires var sub := Select(pre, s);
      var k, k' := LatestIndex(pre, employeeId, date), LatestIndex(sub, employeeId, date);
      && (k == -1 <==> k' == -1)
      && (k != -1 ==> sub[k'] == pre[k])
    ensures var sub := Select(pre + [x], s);
      var k, k' := LatestIndex(pre + [x], employeeId, date), LatestIndex(sub, employeeId, date);
      && (k == -1 <==> k' == -1)
      && (k != -1 ==> sub[k'] == (pre + [x])[k])
  {
    var subPre := Select(pre, s);
    SelectSnoc(pre, x, s);
    LatestIndexSnoc(pre, x, employeeId, date);
    var k := LatestIndex(pre, employeeId, date);
    if k != -1 {
      assert (pre + [x])[k] == pre[k];
    }
    if Selects(s, x) {
      LatestIndexSnoc(subPre, x, employeeId, date);
      var k' := LatestIndex(subPre, employeeId, date);
      if k' != -1 {
        assert (subPre + [x])[k'] == subPre[k'];
      }
    } else {
      assert subPre + [] == subPre;
      assert !Matches(x, employeeId, date);
    }
  }

  /** Selecting from a log with one more record at the end. */
  lemma SelectSnoc(log: seq<TimeRecord>, x: TimeRecord, s: Selector)
    ensures Select(log + [x], s) == Select(log, s) + (if Selects(s, x) then [x] else [])
  {
    assert (log + [x])[..|log|] == log;
  }

  /** The first record of the newest-first list of a day's records is the one
      that decides the day; the list is empty exactly when no record does. */
  lemma {:induction false} NewestFirstIsLatest(log: seq<TimeRecord>, employeeId: EmployeeId, date: Date)
    ensures var sorted := SortByNewest(Select(log, SameDay(employeeId, date)));
      var k := LatestIndex(log, employeeId, date);
      && (sorted == [] <==> k == -1)
      && (sorted != [] ==> sorted[0] == log[k])
  {
    if log != [] {
      var n := |log| - 1;
      assert log == log[..n] + [log[n]];
      NewestFirstIsLatest(log[..n], employeeId, date);
      NewestFirstStep(log[..n], log[n], employeeId, date);
    }
  }

  /** The induction step of `NewestFirstIsLatest`: one more record at the end
      of the log. */
  lemma NewestFirstStep(pre: seq<TimeRecord>, x: TimeRecord, employeeId: EmployeeId, date: Date)
    requires var sorted := SortByNewest(Select(pre, SameDay(employeeId, date)));
      var k := LatestIndex(pre, employeeId, date);
      && (sorted == [] <==> k == -1)
      && (sorted != [] ==> sorted[0] == pre[k])
    ensures var sorted := SortByNewest(Select(pre + [x], SameDay(employeeId, date)));
      var k := LatestIndex(pre + [x], employeeId, date);
      && (sorted == [] <==> k == -1)
      && (sorted != [] ==> sorted[0] == (pre + [x])[k])
  {
    var sel := SameDay(employeeId, date);
    SelectSnoc(pre, x, sel);
    LatestIndexSnoc(pre, x, employeeId, date);
    var k := LatestIndex(pre, employeeId, date);
    if k != -1 {
      assert (pre + [x])[k] == pre[k];
    }
    if Matches(x, employeeId, date) {
      assert Select(pre + [x], sel) == Select(pre, sel) + [x];
      NewestFirstStepMatch(pre, x, employeeId, date);
    } else {
      assert Select(pre + [x], sel) == Select(pre, sel);
    }
  }

  /** The case of `NewestFirstStep` where the new record is for the day. */
  lemma NewestFirstStepMatch(pre: seq<TimeRecord>, x: TimeRecord, employeeId: EmployeeId, date: Date)
    requires Matches(x, employeeId, date)
    requires var sorted := SortByNewest(Select(pre, SameDay(employeeId, date)));
      var k := LatestIndex(pre, employeeId, date);
      && (sorted == [] <==> k == -1)
      && (sorted != [] ==> sorted[0] == pre[k])
    ensures var sorted := SortByNewest(Select(pre, SameDay(employeeId, date)) + [x]);
      var k := LatestIndex(pre, employeeId, date);
      && sorted != []
      && sorted[0] == if k == -1 || x.createdAt > pre[k].createdAt then x else pre[k]
  {
    var subPre := Select(pre, SameDay(employeeId, date));
    var sub := subPre + [x];
    assert sub[..|subPre|] == subPre;
    var sortedPre := SortByNewest(subPre);
    assert SortByNewest(sub) == InsertByNewest(sortedPre, x);
    InsertKeepsNewestFirst(sortedPre, x);
  }

  // ---------------------------------------------------------------------
  // Monthly totals

  /** The grouping key of `calculateLatestTotals`: `${employeeId}-${date}`. */
  datatype DayKey = DayKey(employeeId: EmployeeId, date: Date)

  function KeyOf(r: TimeRecord): DayKey {
    DayKey(r.employeeId, r.date)
  }

  /** The distinct days of `records`, in order of first appearance (the key
      order of the `Map` that `calculateLatestTotals` fills). */
  function DistinctKeys(records: seq<TimeRecord>): (keys: seq<DayKey>)
    ensures |keys| <= |records|
  {
    if records == [] then []
    else
      var n := |records| - 1;
      var keys := DistinctKeys(records[..n]);
      if KeyOf(records[n]) in keys then keys else keys + [KeyOf(records[n])]
  }

  /** The distinct days of a log with one more record at the end. */
  lemma DistinctKeysSnoc(records: seq<TimeRecord>, x: TimeRecord)
    ensures DistinctKeys(records + [x])
      == if KeyOf(x) in DistinctKeys(records) then DistinctKeys(records) else DistinctKeys(records) + [KeyOf(x)]
  {
    assert (records + [x])[..|records|] == records;
  }

  /** Every day of `records` is listed once, and only days of `records` are. */
  lemma {:induction false} DistinctKeysAreTheDays(records: seq<TimeRecord>)
    ensures var keys := DistinctKeys(records);
      && (forall j :: 0 <= j < |records| ==> KeyOf(records[j]) in keys)
      && (forall i :: 0 <= i < |keys| ==> HasRecord(records, keys[i].employeeId, keys[i].date))
      && (forall i, j :: 0 <= i < j < |keys| ==> keys[i] != keys[j])
  {
    if records != [] {
      var n := |records| - 1;
      var pre := records[..n];
      var x := records[n];
      assert records == pre + [x];
      DistinctKeysAreTheDays(pre);
      DistinctKeysSnoc(pre, x);
      var keys := DistinctKeys(pre);
      forall i | 0 <= i < |keys| ensures HasRecord(records, keys[i].employeeId, keys[i].date) {
        var j :| 0 <= j < |pre| && Matches(pre[j], keys[i].employeeId, keys[i].date);
        assert records[j] == pre[j];
      }
      assert Matches(records[n], x.employeeId, x.date);
      forall j | 0 <= j < n ensures KeyOf(records[j]) in keys {
        assert records[j] == pre[j];
      }
    }
  }

  /** The sum, over the given days, of each day's resolved value in `log`. */
  function SumResolved(log: seq<TimeRecord>, keys: seq<DayKey>): int
  {
    if keys == [] then 0
    else
      var n := |keys| - 1;
      SumResolved(log, keys[..n]) + ResolvedMinutes(log, keys[n].employeeId, keys[n].date)
  }

  /** What `calculateLatestTotals` adds up: each day's deciding record, once. */
  function LatestTotal(records: seq<TimeRecord>): int {
    SumResolved(records, DistinctKeys(records))
  }

  /** The state of `calculateLatestTotals` after it has seen `seen`: `order`
      lists the days met so far, first appearance first, and `latest` maps
      each of them to the record that decides it among those seen. */
  ghost predicate TracksLatest(seen: seq<TimeRecord>, latest: map<DayKey, TimeRecord>, order: seq<DayKey>) {
    && order == DistinctKeys(seen)
    && (forall key :: key in latest <==> key in order)
    && (forall key :: key in latest ==>
          LatestIndex(seen, key.employeeId, key.date) != -1
          && latest[key] == seen[LatestIndex(seen, key.employeeId, key.date)])
  }

  /** One turn of the `forEach` loop of `calculateLatestTotals` keeps
      `TracksLatest`: the record replaces the kept one only when strictly newer. */
  lemma TracksLatestStep(seen: seq<TimeRecord>, x: TimeRecord, latest: map<DayKey, TimeRecord>, order: seq<DayKey>)
    requires TracksLatest(seen, latest, order)
    ensures var key := KeyOf(x);
      TracksLatest(seen + [x],
        if key !in latest || x.createdAt > latest[key].createdAt then latest[key := x] else latest,
        if key in order then order else order + [key])
  {
    var key := KeyOf(x);
    var latest' := if key !in latest || x.createdAt > latest[key].createdAt then latest[key := x] else latest;
    DistinctKeysSnoc(seen, x);
    TracksLatestDecided(seen, x, latest, order, latest');
  }

  /** After the step every kept record is still the deciding one of its day. */
  lemma TracksLatestDecided(seen: seq<TimeRecord>, x: TimeRecord, latest: map<DayKey, TimeRecord>,
                            order: seq<DayKey>, latest': map<DayKey, TimeRecord>)
    requires TracksLatest(seen, latest, order)
    requires latest' == if KeyOf(x) !in latest || x.createdAt > latest[KeyOf(x)].createdAt
                        then latest[KeyOf(x) := x] else latest
    ensures forall other :: other in latest' ==>
      LatestIndex(seen + [x], other.employeeId, other.date) != -1
      && latest'[other] == (seen + [x])[LatestIndex(seen + [x], other.employeeId, other.date)]
  {
    forall other | other in latest'
      ensures LatestIndex(seen + [x], other.employeeId, other.date) != -1
      ensures latest'[other] == (seen + [x])[LatestIndex(seen + [x], other.employeeId, other.date)]
    {
      if other == KeyOf(x) {
        TracksLatestSameDay(seen, x, latest, order, latest');
      } else {
        TracksLatestOtherDay(seen, x, latest, order, latest', other);
      }
    }
  }

  /** The day of the new record is decided by the record kept for it. */
  lemma TracksLatestSameDay(seen: seq<TimeRecord>, x: TimeRecord, latest: map<DayKey, TimeRecord>,
                            order: seq<DayKey>, latest': map<DayKey, TimeRecord>)
    requires TracksLatest(seen, latest, order)
    requires latest' == if KeyOf(x) !in latest || x.createdAt > latest[KeyOf(x)].createdAt
                        then latest[KeyOf(x) := x] else latest
    ensures var key := KeyOf(x); var k := LatestIndex(seen + [x], key.employeeId, key.date);
      k != -1 && latest'[key] == (seen + [x])[k]
  {
    var key := KeyOf(x);
    LatestIndexSnoc(seen, x, key.employeeId, key.date);
    var k := LatestIndex(seen, key.employeeId, key.date);
    assert Matches(x, key.employeeId, key.date);
    if k != -1 {
      assert (seen + [x])[k] == seen[k];
      DecidedDayIsListed(seen, key);
    }
  }

  /** A day that has a deciding record is among the listed days. */
  lemma DecidedDayIsListed(seen: seq<TimeRecord>, key: DayKey)
    requires LatestIndex(seen, key.employeeId, key.date) != -1
    ensures key in DistinctKeys(seen)
  {
    var k := LatestIndex(seen, key.employeeId, key.date);
    DistinctKeysAreTheDays(seen);
    assert KeyOf(seen[k]) == key;
  }

  /** `TracksLatestStep` for the next record of a log being walked. */
  lemma TracksLatestNext(records: seq<TimeRecord>, i: nat, latest: map<DayKey, TimeRecord>, order: seq<DayKey>)
    requires i < |records| && TracksLatest(records[..i], latest, order)
    ensures var x := records[i]; var key := KeyOf(x);
      TracksLatest(records[..i + 1],
        if key !in latest || x.createdAt > latest[key].createdAt then latest[key := x] else latest,
        if key in order then order else order + [key])
  {
    assert records[..i + 1] == records[..i] + [records[i]];
    TracksLatestStep(records[..i], records[i], latest, order);
  }

  /** Every other day is decided as before: the new record does not match it. */
  lemma TracksLatestOtherDay(seen: seq<TimeRecord>, x: TimeRecord, latest: map<DayKey, TimeRecord>,
                             order: seq<DayKey>, latest': map<DayKey, TimeRecord>, other: DayKey)
    requires TracksLatest(seen, latest, order)
    requires latest' == if KeyOf(x) !in latest || x.createdAt > latest[KeyOf(x)].createdAt
                        then latest[KeyOf(x) := x] else latest
    requires other in latest' && other != KeyOf(x)
    ensures var k := LatestIndex(seen + [x], other.employeeId, other.date);
      k != -1 && latest'[other] == (seen + [x])[k]
  {
    LatestIndexSnoc(seen, x, other.employeeId, other.date);
    assert !Matches(x, other.employeeId, other.date);
    var k := LatestIndex(seen, other.employeeId, other.date);
    assert (seen + [x])[k] == seen[k];
  }

  /** Adding the record kept for the next listed day extends the sum by that
      day's value. */
  lemma KeptRecordAdds(seen: seq<TimeRecord>, latest: map<DayKey, TimeRecord>, order: seq<DayKey>, j: nat)
    requires TracksLatest(seen, latest, order) && j < |order|
    ensures order[j] in latest
    ensures SumResolved(seen, order[..j + 1]) == SumResolved(seen, order[..j]) + latest[order[j]].totalMinutes
  {
    var key := order[j];
    var keys := order[..j + 1];
    assert keys[..j] == order[..j] && keys[j] == key;
    assert key in latest;
    var k := LatestIndex(seen, key.employeeId, key.date);
    assert ResolvedMinutes(seen, key.employeeId, key.date) == seen[k].totalMinutes;
  }

  /** `calculateLatestTotals`: keeps, per day, the first record with the
      greatest timestamp seen so far in a map, then sums the kept records. */
  method CalculateLatestTotals(records: seq<TimeRecord>) returns (total: int)
    ensures total == LatestTotal(records)
  {
    var latestRecords: map<DayKey, TimeRecord> := map[];
    var order: seq<DayKey> := [];
    var i := 0;
    while i < |records|
      invariant 0 <= i <= |records|
      invariant TracksLatest(records[..i], latestRecords, order)
    {
      var record := records[i];
      var key := KeyOf(record);
      TracksLatestNext(records, i, latestRecords, order);
      // the record replaces the kept one only when strictly newer
      latestRecords := if key !in latestRecords || record.createdAt > latestRecords[key].createdAt
                       then latestRecords[key := record] else latestRecords;
      order := if key in order then order else order + [key];
      i := i + 1;
    }
    assert records[..i] == records;
    total := 0;
    var j := 0;
    while j < |order|
      invariant 0 <= j <= |order|
      invariant total == SumResolved(records, order[..j])
    {
      KeptRecordAdds(records, latestRecords, order, j);
      total := total + latestRecords[order[j]].totalMinutes;
      j := j + 1;
    }
    assert order[..j] == order;
  }

  /** The records `getMonthlyStats` totals for one kind: that log's records
      dated in the month, then those of the employee. */
  function MonthRecords(log: seq<TimeRecord>, employeeId: EmployeeId, year: int, month: int): (r: seq<TimeRecord>)
    ensures forall x :: x in r <==>
      x in log && x.employeeId == employeeId && x.date.year == year && x.date.month == month
  {
    Select(Select(log, SameMonth(year, month)), SameEmployee(employeeId))
  }

  /** Summing each day's deciding record over a month's records is summing,
      over the days touched in that month, the value each day resolves to in
      the whole log (the value `getDailyData` shows for that day). */
  lemma {:induction false} MonthTotalIsSumOfDays(log: seq<TimeRecord>, employeeId: EmployeeId, year: int, month: int)
    ensures var records := MonthRecords(log, employeeId, year, month);
      LatestTotal(records) == SumResolved(log, DistinctKeys(records))
    ensures forall key :: key in DistinctKeys(MonthRecords(log, employeeId, year, month)) ==>
      key.employeeId == employeeId && key.date.year == year && key.date.month == month
  {
    var records := MonthRecords(log, employeeId, year, month);
    var keys := DistinctKeys(records);
    DistinctKeysAreTheDays(records);
    forall key | key in keys
      ensures key.employeeId == employeeId && key.date.year == year && key.date.month == month
      ensures ResolvedMinutes(records, key.employeeId, key.date) == ResolvedMinutes(log, key.employeeId, key.date)
    {
      var j :| 0 <= j < |records| && Matches(records[j], key.employeeId, key.date);
      assert records[j] in records;
      var monthly := Select(log, SameMonth(year, month));
      SelectKeepsLatest(log, SameMonth(year, month), key.employeeId, key.date);
      SelectKeepsLatest(monthly, SameEmployee(employeeId), key.employeeId, key.date);
    }
    SumResolvedAgree(records, log, keys);
  }

  /** Two logs that resolve every listed day alike give the same sum. */
  lemma {:induction false} SumResolvedAgree(a: seq<TimeRecord>, b: seq<TimeRecord>, keys: seq<DayKey>)
    requires forall key :: key in keys ==> ResolvedMinutes(a, key.employeeId, key.date) == ResolvedMinutes(b, key.employeeId, key.date)
    ensures SumResolved(a, keys) == SumResolved(b, keys)
  {
    if keys != [] {
      var n := |keys| - 1;
      assert keys[n] in keys;
      assert forall key :: key in keys[..n] ==> key in keys;
      SumResolvedAgree(a, b, keys[..n]);
    }
  }

  /** An employee with no record dated in the month has zero in total. */
  lemma NoRecordsNoTotal(log: seq<TimeRecord>, employeeId: EmployeeId, year: int, month: int)
    requires forall r :: r in log && r.employeeId == employeeId ==> r.date.year != year || r.date.month != month
    ensures LatestTotal(MonthRecords(log, employeeId, year, month)) == 0
  {
    var monthly := Select(log, SameMonth(year, month));
    forall i | 0 <= i < |monthly| ensures !Selects(SameEmployee(employeeId), monthly[i]) {
      assert monthly[i] in monthly;
    }
    SelectNone(monthly, SameEmployee(employeeId));
  }
}

/**
 * The employee and manager dashboards: today's status of one user, the
 * monthly summary, the recent-attendance window, and for managers the
 * present and absent counts, late arrivals, the seven-day trend, the
 * department breakdown and the absent employees.
 */
module Dashboard {
  import opened Wrappers
  import opened Calendar
  import opened Schema
  import opened Summary
  import opened Recorder

  // ---------------------------------------------------------------------
  // Employee dashboard

  /** `findOne({ userId, date: today })`: the first such record in store order. */
  function FindToday(rows: seq<Record>, user: UserId, today: Day): (r: Option<Record>)
    ensures r.Some? ==> r.value in rows && r.value.userId == user && r.value.day == today
    ensures r.None? ==> forall x :: x in rows ==> x.userId != user || x.day != today
  {
    if rows == [] then None
    else if rows[0].userId == user && rows[0].day == today then Some(rows[0])
    else FindToday(rows[1..], user, today)
  }

  /** The dashboard's today block (no total hours). */
  datatype TodayBrief = TodayBrief(
    checkedIn: bool,
    checkedOut: bool,
    checkInTime: Option<int>,
    checkOutTime: Option<int>,
    status: Status)

  function BriefOf(rec: Option<Record>): (b: TodayBrief)
    ensures rec.None? ==> b == TodayBrief(false, false, None, None, Absent)
    ensures rec.Some? ==> && (b.checkedIn <==> rec.value.checkInTime.Some?)
                          && (b.checkedOut <==> rec.value.checkOutTime.Some?)
                          && b.status == rec.value.status
  {
    match rec
    case None => TodayBrief(false, false, None, None, Absent)
    case Some(r) => TodayBrief(r.checkInTime.Some?, r.checkOutTime.Some?, r.checkInTime, r.checkOutTime, r.status)
  }

  /** The dashboard's today block agrees with the today endpoint on every field they share. */
  lemma BriefAgreesWithView(rec: Option<Record>)
    ensures var b, v := BriefOf(rec), ViewOf(rec);
      b.checkedIn == v.checkedIn && b.checkedOut == v.checkedOut && b.checkInTime == v.checkInTime
      && b.checkOutTime == v.checkOutTime && b.status == v.status
  {
  }

  /** The records of one user dated on one day, in store order. */
  function OfUserOn(rows: seq<Record>, user: UserId, day: Day): (r: seq<Record>)
    ensures forall x :: x in r <==> x in rows && x.userId == user && x.day == day
    ensures forall k :: 0 <= k < |r| ==> r[k].userId == user && r[k].day == day
  {
    if rows == [] then []
    else
      var rest := OfUserOn(rows[..|rows| - 1], user, day);
      var x := rows[|rows| - 1];
      if x.userId == user && x.day == day then rest + [x] else rest
  }

  /** The user's records of days hi, hi - 1, ..., hi - n + 1, latest day first. */
  function LatestFirst(rows: seq<Record>, user: UserId, hi: Day, n: nat): seq<Record>
    decreases n
  {
    if n == 0 then [] else OfUserOn(rows, user, hi) + LatestFirst(rows, user, hi - 1, n - 1)
  }

  /**
   * `find({ userId, date: { $gte: today - 7 days, $lte: today } }).sort({ date: -1 }).limit(7)`.
   */
  function Recent(rows: seq<Record>, user: UserId, today: Day): seq<Record> {
    var all := LatestFirst(rows, user, today, 8);
    if |all| <= 7 then all else all[..7]
  }

  lemma {:induction false} LatestFirstMembers(rows: seq<Record>, user: UserId, hi: Day, n: nat)
    ensures forall x :: x in LatestFirst(rows, user, hi, n) <==>
      x in rows && x.userId == user && hi - n < x.day <= hi
    decreases n
  {
    if n > 0 {
      LatestFirstMembers(rows, user, hi - 1, n - 1);
    }
  }

  /** No two stored records share a (userId, date) pair. */
  predicate UniqueKeys(rows: seq<Record>) {
    forall i, j :: 0 <= i < j < |rows| ==> KeyOf(rows[i]) != KeyOf(rows[j])
  }

  /** Dates never increase along the sequence. */
  predicate Descending(s: seq<Record>) {
    forall i, j :: 0 <= i < j < |s| ==> s[i].day >= s[j].day
  }

  /** Dates strictly decrease along the sequence. */
  predicate StrictlyDescending(s: seq<Record>) {
    forall i, j :: 0 <= i < j < |s| ==> s[i].day > s[j].day
  }

  lemma {:induction false} OfUserOnAtMostOne(rows: seq<Record>, user: UserId, day: Day)
    requires UniqueKeys(rows)
    ensures |OfUserOn(rows, user, day)| <= 1
  {
    if rows != [] {
      var init := rows[..|rows| - 1];
      assert UniqueKeys(init) by {
        forall i, j | 0 <= i < j < |init| ensures KeyOf(init[i]) != KeyOf(init[j]) {
          assert init[i] == rows[i] && init[j] == rows[j];
        }
      }
      OfUserOnAtMostOne(init, user, day);
    }
  }

  lemma {:induction false} LatestFirstBounds(rows: seq<Record>, user: UserId, hi: Day, n: nat)
    ensures forall k :: 0 <= k < |LatestFirst(rows, user, hi, n)| ==>
      hi - n < LatestFirst(rows, user, hi, n)[k].day <= hi
    decreases n
  {
    if n > 0 {
      LatestFirstBounds(rows, user, hi - 1, n - 1);
      var head, tail := OfUserOn(rows, user, hi), LatestFirst(rows, user, hi - 1, n - 1);
      var s := head + tail;
      forall k | 0 <= k < |s| ensures hi - n < s[k].day <= hi {
        if k >= |head| {
          assert s[k] == tail[k - |head|];
        }
      }
    }
  }

  /** Dates never increase along the window. */
  lemma {:induction false} LatestFirstSorted(rows: seq<Record>, user: UserId, hi: Day, n: nat)
    ensures Descending(LatestFirst(rows, user, hi, n))
    decreases n
  {
    if n > 0 {
      var head, tail := OfUserOn(rows, user, hi), LatestFirst(rows, user, hi - 1, n - 1);
      LatestFirstSorted(rows, user, hi - 1, n - 1);
      LatestFirstBounds(rows, user, hi - 1, n - 1);
      var s := head + tail;
      forall i, j | 0 <= i < j < |s| ensures s[i].day >= s[j].day {
        if j < |head| {
          assert s[i] == head[i] && s[j] == head[j];
        } else if i < |head| {
          assert s[i] == head[i] && s[j] == tail[j - |head|];
        } else {
          assert s[i] == tail[i - |head|] && s[j] == tail[j - |head|];
        }
      }
    }
  }

  /** Under the unique index, dates strictly decrease along the window. */
  lemma {:induction false} LatestFirstStrict(rows: seq<Record>, user: UserId, hi: Day, n: nat)
    requires UniqueKeys(rows)
    ensures StrictlyDescending(LatestFirst(rows, user, hi, n))
    decreases n
  {
    if n > 0 {
      var head, tail := OfUserOn(rows, user, hi), LatestFirst(rows, user, hi - 1, n - 1);
      LatestFirstStrict(rows, user, hi - 1, n - 1);
      LatestFirstBounds(rows, user, hi - 1, n - 1);
      OfUserOnAtMostOne(rows, user, hi);
      var s := head + tail;
      forall i, j | 0 <= i < j < |s| ensures s[i].day > s[j].day {
        if i < |head| {
          assert s[i] == head[i] && s[j] == tail[j - |head|];
        } else {
          assert s[i] == tail[i - |head|] && s[j] == tail[j - |head|];
        }
      }
    }
  }

  /** The recent window holds at most seven of the user's records, all dated within the seven days before today or today. */
  lemma RecentBounded(rows: seq<Record>, user: UserId, today: Day)
    ensures |Recent(rows, user, today)| <= 7
    ensures forall x :: x in Recent(rows, user, today) ==>
      x in rows && x.userId == user && today - 7 <= x.day <= today
  {
    LatestFirstMembers(rows, user, today, 8);
    assert forall x :: x in Recent(rows, user, today) ==> x in LatestFirst(rows, user, today, 8);
  }

  /** When fewer than seven are shown, every record of the user in the window is among them. */
  lemma RecentComplete(rows: seq<Record>, user: UserId, today: Day)
    requires |Recent(rows, user, today)| < 7
    ensures forall x :: x in rows && x.userId == user && today - 7 <= x.day <= today ==>
      x in Recent(rows, user, today)
  {
    LatestFirstMembers(rows, user, today, 8);
  }

  /** Under the unique index, n days hold at most n of the user's records. */
  lemma {:induction false} LatestFirstAtMost(rows: seq<Record>, user: UserId, hi: Day, n: nat)
    requires UniqueKeys(rows)
    ensures |LatestFirst(rows, user, hi, n)| <= n
    decreases n
  {
    if n > 0 {
      OfUserOnAtMostOne(rows, user, hi);
      LatestFirstAtMost(rows, user, hi - 1, n - 1);
    }
  }

  /** A shorter window is a prefix of a longer one from the same day. */
  lemma {:induction false} LatestFirstPrefix(rows: seq<Record>, user: UserId, hi: Day, m: nat, n: nat)
    requires m <= n
    ensures |LatestFirst(rows, user, hi, m)| <= |LatestFirst(rows, user, hi, n)|
    ensures LatestFirst(rows, user, hi, n)[..|LatestFirst(rows, user, hi, m)|] == LatestFirst(rows, user, hi, m)
    decreases m
  {
    if m > 0 {
      LatestFirstPrefix(rows, user, hi - 1, m - 1, n - 1);
      PrefixAfter(OfUserOn(rows, user, hi), LatestFirst(rows, user, hi - 1, n - 1), LatestFirst(rows, user, hi - 1, m - 1));
    }
  }

  lemma PrefixAfter(head: seq<Record>, a: seq<Record>, b: seq<Record>)
    requires |b| <= |a| && a[..|b|] == b
    ensures (head + a)[..|head + b|] == head + b
  {
  }

  /**
   * The limit of seven cuts only the oldest day: under the unique index every
   * record of the user from the last seven days, today included, is shown.
   */
  lemma RecentKeepsLatest(rows: seq<Record>, user: UserId, today: Day)
    requires UniqueKeys(rows)
    ensures forall x :: x in rows && x.userId == user && today - 6 <= x.day <= today ==>
      x in Recent(rows, user, today)
  {
    var week := LatestFirst(rows, user, today, 7);
    LatestFirstPrefix(rows, user, today, 7, 8);
    LatestFirstAtMost(rows, user, today, 7);
    LatestFirstMembers(rows, user, today, 7);
    var r := Recent(rows, user, today);
    assert r[..|week|] == week;
    forall x | x in rows && x.userId == user && today - 6 <= x.day <= today ensures x in r {
      var k :| 0 <= k < |week| && week[k] == x;
      assert r[k] == x;
    }
  }

  /** The window is shown latest first. */
  lemma RecentLatestFirst(rows: seq<Record>, user: UserId, today: Day)
    ensures Descending(Recent(rows, user, today))
  {
    var all := LatestFirst(rows, user, today, 8);
    LatestFirstSorted(rows, user, today, 8);
    var r := Recent(rows, user, today);
    forall i, j | 0 <= i < j < |r| ensures r[i].day >= r[j].day {
      assert r[i] == all[i] && r[j] == all[j];
    }
  }

  /** With the unique index in place, the window shows at most one record per day. */
  lemma RecentOnePerDay(rows: seq<Record>, user: UserId, today: Day)
    requires UniqueKeys(rows)
    ensures StrictlyDescending(Recent(rows, user, today))
  {
    var all := LatestFirst(rows, user, today, 8);
    LatestFirstStrict(rows, user, today, 8);
    var r := Recent(rows, user, today);
    forall i, j | 0 <= i < j < |r| ensures r[i].day > r[j].day {
      assert r[i] == all[i] && r[j] == all[j];
    }
  }

  datatype EmployeeView = EmployeeView(
    todayStatus: TodayBrief,
    monthlySummary: Summary,
    totalHours: int,
    recentAttendance: seq<Record>)

  /** `getEmployeeDashboard` for the user, at the given clock reading. */
  method EmployeeDashboard(rows: seq<Record>, user: UserId, now: Now) returns (view: EmployeeView)
    requires ValidNow(now)
    ensures view.todayStatus == BriefOf(FindToday(rows, user, Today(now)))
    ensures view.monthlySummary == SummaryOf(Select(rows, Some(user), MonthRange(now.year, now.month - 1)))
    ensures view.totalHours == view.monthlySummary.totalHours
    ensures view.recentAttendance == Recent(rows, user, Today(now))
  {
    var today := DayNumber(now.year, now.month, now.date);
    var todayAttendance := FindToday(rows, user, today);
    var monthlyAttendance := Select(rows, Some(user), MonthRange(now.year, now.month - 1));
    var summary := Summarize(monthlyAttendance);
    view := EmployeeView(BriefOf(todayAttendance), summary, summary.totalHours, Recent(rows, user, today));
  }

  // ---------------------------------------------------------------------
  // Manager dashboard

  /** Number of records whose status is not absent: late and half-day count as present. */
  function CountPresent(rs: seq<Record>): (n: nat)
    ensures n <= |rs|
  {
    if rs == [] then 0
    else CountPresent(rs[..|rs| - 1]) + (if rs[|rs| - 1].status != Absent then 1 else 0)
  }

  /** Present is everything the summary would not count as absent. */
  lemma {:induction false} PresentIsNotAbsent(rs: seq<Record>)
    ensures CountPresent(rs) == |rs| - CountStatus(rs, Absent)
    ensures CountPresent(rs) == CountStatus(rs, Present) + CountStatus(rs, Late) + CountStatus(rs, HalfDay)
  {
    if rs != [] {
      PresentIsNotAbsent(rs[..|rs| - 1]);
    }
  }

  /** The records with status late, in store order. */
  function LateRecords(rs: seq<Record>): (r: seq<Record>)
    ensures |r| == CountStatus(rs, Late)
    ensures forall x :: x in r <==> x in rs && x.status == Late
  {
    if rs == [] then []
    else
      var x := rs[|rs| - 1];
      LateRecords(rs[..|rs| - 1]) + (if x.status == Late then [x] else [])
  }

  /**
   * The late filter keeps order and multiplicity: it distributes over
   * concatenation.
   */
  lemma {:induction false} LateRecordsConcat(a: seq<Record>, b: seq<Record>)
    ensures LateRecords(a + b) == LateRecords(a) + LateRecords(b)
  {
    if b == [] {
      assert a + b == a;
    } else {
      assert (a + b)[..|a + b| - 1] == a + b[..|b| - 1];
      LateRecordsConcat(a, b[..|b| - 1]);
    }
  }

  /** A single record is kept exactly when it is late. */
  lemma LateRecordsOne(x: Record)
    ensures LateRecords([x]) == if x.status == Late then [x] else []
  {
    assert [x][..0] == [];
  }

  datatype LateArrival = LateArrival(id: UserId, name: string, employeeId: string, department: string,
                                     checkInTime: Option<int>)

  /** Every non-absent record's user can be populated (the source dereferences `a.userId._id`). */
  predicate PresentPopulated(users: seq<User>, todays: seq<Record>) {
    forall i :: 0 <= i < |todays| && todays[i].status != Absent ==> FindUser(users, todays[i].userId).Some?
  }

  function LateArrivals(users: seq<User>, todays: seq<Record>): (r: seq<LateArrival>)
    requires PresentPopulated(users, todays)
    ensures |r| == |LateRecords(todays)|
    ensures forall k :: 0 <= k < |r| ==>
      r[k].id == LateRecords(todays)[k].userId && r[k].checkInTime == LateRecords(todays)[k].checkInTime
  {
    var late := LateRecords(todays);
    assert forall k :: 0 <= k < |late| ==> FindUser(users, late[k].userId).Some? by {
      forall k | 0 <= k < |late| ensures FindUser(users, late[k].userId).Some? {
        assert late[k] in late;
        var i :| 0 <= i < |todays| && todays[i] == late[k];
      }
    }
    seq(|late|, k requires 0 <= k < |late| =>
      var u := FindUser(users, late[k].userId).value;
      LateArrival(u.id, u.name, u.employeeId, u.department, late[k].checkInTime))
  }

  datatype TrendPoint = TrendPoint(day: Day, present: nat, total: nat)

  /** Non-absent records dated on the given day. */
  function PresentOn(rs: seq<Record>, day: Day): nat {
    CountPresent(OnDay(rs, day))
  }

  /** The weekly-trend loop: seven days, oldest first, each with that day's present count. */
  method WeeklyTrend(weekly: seq<Record>, totalEmployees: nat, today: Day) returns (trend: seq<TrendPoint>)
    ensures |trend| == 7
    ensures forall k :: 0 <= k < 7 ==>
      trend[k] == TrendPoint(today - 6 + k, PresentOn(weekly, today - 6 + k), totalEmployees)
  {
    trend := [];
    var i := 6;
    while i >= 0
      invariant -1 <= i <= 6
      invariant |trend| == 6 - i
      invariant forall k :: 0 <= k < |trend| ==>
        trend[k] == TrendPoint(today - 6 + k, PresentOn(weekly, today - 6 + k), totalEmployees)
    {
      var date := today - i;
      var dayAttendance := OnDay(weekly, date);
      trend := trend + [TrendPoint(date, CountPresent(dayAttendance), totalEmployees)];
      i := i - 1;
    }
  }

  /** The records dated within [lo, hi], in store order (the weekly query). */
  function Between(rows: seq<Record>, lo: Day, hi: Day): (r: seq<Record>)
    ensures forall x :: x in r <==> x in rows && lo <= x.day <= hi
  {
    if rows == [] then []
    else
      var x := rows[|rows| - 1];
      Between(rows[..|rows| - 1], lo, hi) + (if lo <= x.day <= hi then [x] else [])
  }

  /** Narrowing the records to the query window first does not change any day inside it. */
  lemma {:induction false} BetweenKeepsDays(rows: seq<Record>, lo: Day, hi: Day, day: Day)
    requires lo <= day <= hi
    ensures OnDay(Between(rows, lo, hi), day) == OnDay(rows, day)
  {
    if rows != [] {
      var init, x := rows[..|rows| - 1], rows[|rows| - 1];
      BetweenKeepsDays(init, lo, hi, day);
      var b := Between(init, lo, hi);
      if lo <= x.day <= hi {
        assert Between(rows, lo, hi) == b + [x];
        assert (b + [x])[..|b + [x]| - 1] == b;
        assert OnDay(b + [x], day) == OnDay(b, day) + (if x.day == day then [x] else []);
      } else {
        assert Between(rows, lo, hi) == b;
        assert x.day != day;
      }
    }
  }

  datatype DeptStats = DeptStats(total: nat, present: nat)

  datatype DeptEntry = DeptEntry(department: string, total: nat, present: nat, absent: int)

  /** The department a record is counted under: the user's, or 'General' when missing or empty. */
  function DeptOf(users: seq<User>, r: Record): string {
    match FindUser(users, r.userId)
    case Some(u) => if u.department != "" then u.department else "General"
    case None => "General"
  }

  /** The departments declared on employees, each once, in order of first appearance. */
  function Departments(emps: seq<User>): (ds: seq<string>)
    ensures forall i :: 0 <= i < |emps| ==> emps[i].department in ds
    ensures forall i, j :: 0 <= i < j < |ds| ==> ds[i] != ds[j]
  {
    if emps == [] then []
    else
      var ds := Departments(emps[..|emps| - 1]);
      var last := emps[|emps| - 1];
      assert forall i :: 0 <= i < |emps| - 1 ==> emps[i] == emps[..|emps| - 1][i];
      if last.department in ds then ds else ds + [last.department]
  }

  /** Head count of a department among the employees. */
  function DeptTotal(emps: seq<User>, d: string): nat {
    if emps == [] then 0
    else DeptTotal(emps[..|emps| - 1], d) + (if emps[|emps| - 1].department == d then 1 else 0)
  }

  /** A department is listed exactly when somebody belongs to it. */
  lemma {:induction false} DepartmentsDeclared(emps: seq<User>, d: string)
    ensures d in Departments(emps) <==> DeptTotal(emps, d) > 0
  {
    if emps != [] {
      var init := emps[..|emps| - 1];
      DepartmentsDeclared(init, d);
      assert d in Departments(emps) <==> d in Departments(init) || emps[|emps| - 1].department == d;
    }
  }

  function DeptPresent(users: seq<User>, todays: seq<Record>, d: string): nat {
    if todays == [] then 0
    else
      var x := todays[|todays| - 1];
      DeptPresent(users, todays[..|todays| - 1], d) + (if x.status != Absent && DeptOf(users, x) == d then 1 else 0)
  }

  /** One entry per department declared on employees, with its head count and today's present count. */
  function DepartmentWiseOf(users: seq<User>, todays: seq<Record>): seq<DeptEntry> {
    var emps := Employees(users);
    var ds := Departments(emps);
    seq(|ds|, k requires 0 <= k < |ds| =>
      DeptEntry(ds[k], DeptTotal(emps, ds[k]), DeptPresent(users, todays, ds[k]),
                DeptTotal(emps, ds[k]) - DeptPresent(users, todays, ds[k])))
  }

  /** First half of the `departmentStats` dictionary: one entry per department, counting its employees. */
  method DepartmentTotals(employees: seq<User>) returns (stats: map<string, DeptStats>, order: seq<string>)
    ensures order == Departments(employees)
    ensures forall d :: d in stats <==> d in order
    ensures forall d :: d in stats ==> stats[d] == DeptStats(DeptTotal(employees, d), 0)
  {
    stats := map[];
    order := [];
    for i := 0 to |employees|
      invariant order == Departments(employees[..i])
      invariant forall d :: d in stats <==> d in order
      invariant forall d :: d in stats ==> stats[d] == DeptStats(DeptTotal(employees[..i], d), 0)
    {
      var dept := employees[i].department;
      assert employees[..i + 1][..i] == employees[..i];
      DepartmentsDeclared(employees[..i], dept);
      if dept !in stats {
        stats := stats[dept := DeptStats(0, 0)];
        order := order + [dept];
      }
      stats := stats[dept := stats[dept].(total := stats[dept].total + 1)];
    }
    assert employees[..|employees|] == employees;
  }

  /** Second half: each non-absent record of today adds one to its department, if that department is listed. */
  method CountPresentByDepartment(users: seq<User>, todays: seq<Record>, totals: map<string, DeptStats>)
    returns (stats: map<string, DeptStats>)
    requires forall d :: d in totals ==> totals[d].present == 0
    ensures stats.Keys == totals.Keys
    ensures forall d :: d in stats ==> stats[d] == DeptStats(totals[d].total, DeptPresent(users, todays, d))
  {
    stats := totals;
    for j := 0 to |todays|
      invariant stats.Keys == totals.Keys
      invariant forall d :: d in stats ==> stats[d] == DeptStats(totals[d].total, DeptPresent(users, todays[..j], d))
    {
      var att := todays[j];
      assert todays[..j + 1][..j] == todays[..j];
      var dept := DeptOf(users, att);
      if dept in stats && att.status != Absent {
        stats := stats[dept := stats[dept].(present := stats[dept].present + 1)];
      }
    }
    assert todays[..|todays|] == todays;
  }

  /** The `departmentStats` dictionary turned into entries, in the order departments were first seen. */
  method DepartmentBreakdown(users: seq<User>, todays: seq<Record>) returns (result: seq<DeptEntry>)
    ensures result == DepartmentWiseOf(users, todays)
  {
    var employees := Employees(users);
    var totals, order := DepartmentTotals(employees);
    var stats := CountPresentByDepartment(users, todays, totals);
    result := seq(|order|, k requires 0 <= k < |order| =>
      DeptEntry(order[k], stats[order[k]].total, stats[order[k]].present,
                stats[order[k]].total - stats[order[k]].present));
  }

  /** The ids of today's non-absent records. */
  function PresentIds(todays: seq<Record>): (ids: seq<UserId>)
    ensures forall id :: id in ids <==> exists r :: r in todays && r.status != Absent && r.userId == id
  {
    if todays == [] then []
    else
      var x := todays[|todays| - 1];
      assert forall r :: r in todays <==> r in todays[..|todays| - 1] || r == x;
      PresentIds(todays[..|todays| - 1]) + (if x.status != Absent then [x.userId] else [])
  }

  /** The employees, in employee order, with no non-absent record today. */
  function AbsentEmployees(emps: seq<User>, todays: seq<Record>): (r: seq<User>)
    ensures |r| <= |emps|
    ensures forall e :: e in r <==> e in emps && e.id !in PresentIds(todays)
  {
    if emps == [] then []
    else
      var e := emps[0];
      (if e.id !in PresentIds(todays) then [e] else []) + AbsentEmployees(emps[1..], todays)
  }

  /**
   * The absent filter keeps employee order and multiplicity: it distributes
   * over concatenation.
   */
  lemma {:induction false} AbsentEmployeesConcat(a: seq<User>, b: seq<User>, todays: seq<Record>)
    ensures AbsentEmployees(a + b, todays) == AbsentEmployees(a, todays) + AbsentEmployees(b, todays)
  {
    if a == [] {
      assert a + b == b;
    } else {
      assert (a + b)[1..] == a[1..] + b;
      AbsentEmployeesConcat(a[1..], b, todays);
    }
  }

  /** A single employee is kept exactly when absent. */
  lemma AbsentEmployeesOne(e: User, todays: seq<Record>)
    ensures AbsentEmployees([e], todays) == if e.id !in PresentIds(todays) then [e] else []
  {
    assert [e][1..] == [];
  }

  /** Every employee is either among the absent ones or has a non-absent record today, never both. */
  lemma AbsentOrPresent(emps: seq<User>, todays: seq<Record>, e: User)
    requires e in emps
    ensures e in AbsentEmployees(emps, todays) <==> !(exists r :: r in todays && r.status != Absent && r.userId == e.id)
  {
  }

  datatype ManagerView = ManagerView(
    totalEmployees: nat,
    todayPresent: nat,
    todayAbsent: int,
    lateArrivals: seq<LateArrival>,
    weeklyTrend: seq<TrendPoint>,
    departmentWise: seq<DeptEntry>,
    absentEmployees: seq<User>)

  /** A populated record whose user document is missing makes the dashboard throw. */
  datatype DashboardError = DanglingUser

  /** `getManagerDashboard` over the attendance collection and the users, for today's date. */
  method ManagerDashboard(users: seq<User>, rows: seq<Record>, today: Day) returns (result: Result<ManagerView, DashboardError>)
    ensures result.Failure? <==> !PresentPopulated(users, OnDay(rows, today))
    ensures result.Success? ==>
      var todays, emps, v := OnDay(rows, today), Employees(users), result.value;
      && v.totalEmployees == |emps|
      && v.todayPresent == CountPresent(todays)
      && v.todayAbsent == |emps| - CountPresent(todays)
      && v.lateArrivals == LateArrivals(users, todays)
      && |v.weeklyTrend| == 7
      && (forall k :: 0 <= k < 7 ==>
            v.weeklyTrend[k] == TrendPoint(today - 6 + k, PresentOn(rows, today - 6 + k), |emps|))
      && v.departmentWise == DepartmentWiseOf(users, todays)
      && v.absentEmployees == AbsentEmployees(emps, todays)
  {
    var totalEmployees := |Employees(users)|;
    var todayAttendance := OnDay(rows, today);
    if !PresentPopulated(users, todayAttendance) {
      return Failure(DanglingUser);
    }
    var todayPresent := CountPresent(todayAttendance);
    var todayAbsent := totalEmployees - todayPresent;
    var lateArrivals := LateArrivals(users, todayAttendance);
    var weeklyAttendance := Between(rows, today - 7, today);
    var weeklyTrend := WeeklyTrend(weeklyAttendance, totalEmployees, today);
    forall d | today - 7 <= d <= today
      ensures OnDay(weeklyAttendance, d) == OnDay(rows, d)
    {
      BetweenKeepsDays(rows, today - 7, today, d);
    }
    var departmentWise := DepartmentBreakdown(users, todayAttendance);
    var employees := Employees(users);
    var absentEmployees := AbsentEmployees(employees, todayAttendance);
    result := Success(ManagerView(totalEmployees, todayPresent, todayAbsent, lateArrivals,
                                  weeklyTrend, departmentWise, absentEmployees));
  }
}

/**
 * The status-count summary that the personal summary, the team summary and
 * the employee dashboard compute over a set of records, and the month range
 * those records are selected by.
 */
module Summary {
  import opened Wrappers
  import opened Calendar
  import opened Schema

  datatype Summary = Summary(present: nat, absent: nat, late: nat, halfDay: nat, totalHours: int)

  /** Number of records with the given status. */
  function CountStatus(rs: seq<Record>, s: Status): (n: nat)
    ensures n <= |rs|
  {
    if rs == [] then 0
    else CountStatus(rs[..|rs| - 1], s) + (if rs[|rs| - 1].status == s then 1 else 0)
  }

  /** Sum of the records' hours, in hundredths. */
  function SumHours(rs: seq<Record>): int {
    if rs == [] then 0 else SumHours(rs[..|rs| - 1]) + rs[|rs| - 1].totalHours
  }

  /** What the fold computes, as counts over the whole sequence. */
  function SummaryOf(rs: seq<Record>): Summary {
    Summary(CountStatus(rs, Present), CountStatus(rs, Absent), CountStatus(rs, Late),
            CountStatus(rs, HalfDay), SumHours(rs))
  }

  /** The `forEach` fold: one counter per record, chosen by status, and the running sum of hours. */
  method Summarize(records: seq<Record>) returns (summary: Summary)
    ensures summary == SummaryOf(records)
  {
    var present, absent, late, halfDay := 0, 0, 0, 0;
    var totalHours := 0;
    for i := 0 to |records|
      invariant present == CountStatus(records[..i], Present)
      invariant absent == CountStatus(records[..i], Absent)
      invariant late == CountStatus(records[..i], Late)
      invariant halfDay == CountStatus(records[..i], HalfDay)
      invariant totalHours == SumHours(records[..i])
    {
      var record := records[i];
      assert records[..i + 1][..i] == records[..i];
      if record.status == Present {
        present := present + 1;
      } else if record.status == Absent {
        absent := absent + 1;
      } else if record.status == Late {
        late := late + 1;
      } else if record.status == HalfDay {
        halfDay := halfDay + 1;
      }
      totalHours := totalHours + record.totalHours;
    }
    assert records[..|records|] == records;
    summary := Summary(present, absent, late, halfDay, totalHours);
  }

  function Total(s: Summary): nat {
    s.present + s.absent + s.late + s.halfDay
  }

  /** An empty selection summarises to all zeros. */
  lemma EmptySummary()
    ensures SummaryOf([]) == Summary(0, 0, 0, 0, 0)
  {
  }

  /** Every record increments exactly one counter: the counters add up to the number of records. */
  lemma {:induction false} SummaryCountsEveryRecord(rs: seq<Record>)
    ensures Total(SummaryOf(rs)) == |rs|
  {
    if rs != [] {
      SummaryCountsEveryRecord(rs[..|rs| - 1]);
    }
  }

  lemma {:induction false} CountStatusConcat(a: seq<Record>, b: seq<Record>, s: Status)
    ensures CountStatus(a + b, s) == CountStatus(a, s) + CountStatus(b, s)
  {
    if b == [] {
      assert a + b == a;
    } else {
      assert (a + b)[..|a + b| - 1] == a + b[..|b| - 1];
      CountStatusConcat(a, b[..|b| - 1], s);
    }
  }

  lemma {:induction false} SumHoursConcat(a: seq<Record>, b: seq<Record>)
    ensures SumHours(a + b) == SumHours(a) + SumHours(b)
  {
    if b == [] {
      assert a + b == a;
    } else {
      assert (a + b)[..|a + b| - 1] == a + b[..|b| - 1];
      SumHoursConcat(a, b[..|b| - 1]);
    }
  }

  /** The summary of two selections together is the field-wise sum of their summaries. */
  lemma {:induction false} SummaryOfConcat(a: seq<Record>, b: seq<Record>)
    ensures SummaryOf(a + b).present == SummaryOf(a).present + SummaryOf(b).present
    ensures SummaryOf(a + b).absent == SummaryOf(a).absent + SummaryOf(b).absent
    ensures SummaryOf(a + b).late == SummaryOf(a).late + SummaryOf(b).late
    ensures SummaryOf(a + b).halfDay == SummaryOf(a).halfDay + SummaryOf(b).halfDay
    ensures SummaryOf(a + b).totalHours == SummaryOf(a).totalHours + SummaryOf(b).totalHours
  {
    CountStatusConcat(a, b, Present);
    CountStatusConcat(a, b, Absent);
    CountStatusConcat(a, b, Late);
    CountStatusConcat(a, b, HalfDay);
    SumHoursConcat(a, b);
  }

  /** Adding one record of status s to a selection increments exactly the counter of s. */
  lemma SummaryOfOneMore(rs: seq<Record>, r: Record)
    ensures var before, after := SummaryOf(rs), SummaryOf(rs + [r]);
      && after.totalHours == before.totalHours + r.totalHours
      && Total(after) == Total(before) + 1
      && (after.present == before.present + 1 <==> r.status == Present)
      && (after.absent == before.absent + 1 <==> r.status == Absent)
      && (after.late == before.late + 1 <==> r.status == Late)
      && (after.halfDay == before.halfDay + 1 <==> r.status == HalfDay)
  {
    assert (rs + [r])[..|rs + [r]| - 1] == rs;
  }

  // ---------------------------------------------------------------------
  // Selecting a month

  /**
   * The month index a summary covers: the 1-indexed month parameter minus
   * one when given, else the current month; the year parameter when given,
   * else the current year.
   */
  function SummaryMonth(month: Option<int>, year: Option<int>, currentYear: int, currentMonth: int): (int, int)
    requires 1 <= currentMonth <= 12
  {
    (year.GetOr(currentYear), if month.Some? then month.value - 1 else currentMonth - 1)
  }

  function SummaryRange(month: Option<int>, year: Option<int>, currentYear: int, currentMonth: int): Interval
    requires 1 <= currentMonth <= 12
  {
    var (y, i) := SummaryMonth(month, year, currentYear, currentMonth);
    MonthRange(y, i)
  }

  /** The records of a user (or of everyone) dated within an interval, in store order. */
  function Select(rows: seq<Record>, user: Option<UserId>, iv: Interval): (r: seq<Record>)
    ensures |r| <= |rows|
    ensures forall x :: x in r <==> x in rows && (user.Some? ==> x.userId == user.value)
                                       && Contains(iv, Midnight(x.day))
  {
    if rows == [] then []
    else
      var rest := Select(rows[..|rows| - 1], user, iv);
      var x := rows[|rows| - 1];
      if (user.Some? ==> x.userId == user.value) && Contains(iv, Midnight(x.day))
      then rest + [x] else rest
  }

  /**
   * The selection keeps order and multiplicity: it distributes over
   * concatenation.
   */
  lemma {:induction false} SelectConcat(a: seq<Record>, b: seq<Record>, user: Option<UserId>, iv: Interval)
    ensures Select(a + b, user, iv) == Select(a, user, iv) + Select(b, user, iv)
  {
    if b == [] {
      assert a + b == a;
    } else {
      assert (a + b)[..|a + b| - 1] == a + b[..|b| - 1];
      SelectConcat(a, b[..|b| - 1], user, iv);
    }
  }

  /** A single record is selected exactly when it is the user's and dated within the interval. */
  lemma SelectOne(x: Record, user: Option<UserId>, iv: Interval)
    ensures Select([x], user, iv) ==
            if (user.Some? ==> x.userId == user.value) && Contains(iv, Midnight(x.day)) then [x] else []
  {
    assert [x][..0] == [];
  }

  /** The personal monthly summary (`getMySummary`): one count per record of the user in the month. */
  function MySummary(rows: seq<Record>, user: UserId, month: Option<int>, year: Option<int>,
                     currentYear: int, currentMonth: int): (s: Summary)
    requires 1 <= currentMonth <= 12
    ensures Total(s) == |Select(rows, Some(user), SummaryRange(month, year, currentYear, currentMonth))|
    ensures Total(s) <= |rows|
  {
    var selected := Select(rows, Some(user), SummaryRange(month, year, currentYear, currentMonth));
    SummaryCountsEveryRecord(selected);
    SummaryOf(selected)
  }

  datatype TeamSummary = TeamSummary(totalEmployees: nat, summary: Summary)

  /** The team monthly summary (`getTeamSummary`): every user's records of the month, and the employee head count. */
  function TeamSummaryOf(rows: seq<Record>, users: seq<User>, month: Option<int>, year: Option<int>,
                         currentYear: int, currentMonth: int): (t: TeamSummary)
    requires 1 <= currentMonth <= 12
    ensures t.totalEmployees == |Employees(users)|
    ensures Total(t.summary) == |Select(rows, None, SummaryRange(month, year, currentYear, currentMonth))|
    ensures Total(t.summary) <= |rows|
  {
    var selected := Select(rows, None, SummaryRange(month, year, currentYear, currentMonth));
    SummaryCountsEveryRecord(selected);
    TeamSummary(|Employees(users)|, SummaryOf(selected))
  }

  /** The day range a summary selects: the parsed month of the parsed year, each defaulting to the current one. */
  lemma {:induction false} SummaryRangeDays(month: Option<int>, year: Option<int>, currentYear: int, currentMonth: int, day: int)
    requires 1 <= currentMonth <= 12 && 1 <= month.GetOr(currentMonth) <= 12 && year.GetOr(currentYear) >= 100
    ensures Contains(SummaryRange(month, year, currentYear, currentMonth), Midnight(day)) <==>
      DayNumber(year.GetOr(currentYear), month.GetOr(currentMonth), 1) <= day
      <= DayNumber(year.GetOr(currentYear), month.GetOr(currentMonth), DaysInMonth(year.GetOr(currentYear), month.GetOr(currentMonth)))
  {
    assert SummaryMonth(month, year, currentYear, currentMonth) == (year.GetOr(currentYear), month.GetOr(currentMonth) - 1);
    MonthRangeOfMonth(year.GetOr(currentYear), month.GetOr(currentMonth), day);
  }

  /** A record is summarised by `getMySummary` iff it is the user's and dated in the requested month. */
  lemma MySummaryOfMonth(rows: seq<Record>, user: UserId, month: Option<int>, year: Option<int>,
                         currentYear: int, currentMonth: int)
    requires 1 <= currentMonth <= 12 && 1 <= month.GetOr(currentMonth) <= 12 && year.GetOr(currentYear) >= 100
    ensures MySummary(rows, user, month, year, currentYear, currentMonth)
         == SummaryOf(Select(rows, Some(user), SummaryRange(month, year, currentYear, currentMonth)))
    ensures forall x :: x in Select(rows, Some(user), SummaryRange(month, year, currentYear, currentMonth)) <==>
      x in rows && x.userId == user && InMonth(x.day, year.GetOr(currentYear), month.GetOr(currentMonth))
  {
    forall x | x in rows
      ensures Contains(SummaryRange(month, year, currentYear, currentMonth), Midnight(x.day))
          <==> InMonth(x.day, year.GetOr(currentYear), month.GetOr(currentMonth))
    {
      SummaryRangeDays(month, year, currentYear, currentMonth, x.day);
    }
  }

  /** A record is summarised by `getTeamSummary` iff it is dated in the requested month, whoever it belongs to. */
  lemma TeamSummaryOfMonth(rows: seq<Record>, users: seq<User>, month: Option<int>, year: Option<int>,
                           currentYear: int, currentMonth: int)
    requires 1 <= currentMonth <= 12 && 1 <= month.GetOr(currentMonth) <= 12 && year.GetOr(currentYear) >= 100
    ensures TeamSummaryOf(rows, users, month, year, currentYear, currentMonth).summary
         == SummaryOf(Select(rows, None, SummaryRange(month, year, currentYear, currentMonth)))
    ensures forall x :: x in Select(rows, None, SummaryRange(month, year, currentYear, currentMonth)) <==>
      x in rows && InMonth(x.day, year.GetOr(currentYear), month.GetOr(currentMonth))
  {
    forall x | x in rows
      ensures Contains(SummaryRange(month, year, currentYear, currentMonth), Midnight(x.day))
          <==> InMonth(x.day, year.GetOr(currentYear), month.GetOr(currentMonth))
    {
      SummaryRangeDays(month, year, currentYear, currentMonth, x.day);
    }
  }

  /** Day d is one of the days of the 1-indexed month m of year y. */
  predicate InMonth(d: int, y: int, m: int)
    requires 1 <= m <= 12
  {
    DayNumber(y, m, 1) <= d <= DayNumber(y, m, DaysInMonth(y, m))
  }

  /** With a 1-indexed month parameter the summary covers exactly that month's days of the given year. */
  lemma {:induction false} SummaryRangeOfMonth(month: int, year: int, currentYear: int, currentMonth: int, day: int)
    requires 1 <= month <= 12 && year >= 100 && 1 <= currentMonth <= 12
    ensures Contains(SummaryRange(Some(month), Some(year), currentYear, currentMonth), Midnight(day)) <==>
      DayNumber(year, month, 1) <= day <= DayNumber(year, month, DaysInMonth(year, month))
  {
    assert SummaryMonth(Some(month), Some(year), currentYear, currentMonth) == (year, month - 1);
    MonthRangeOfMonth(year, month, day);
  }

  /** Without parameters the summary covers the current month. */
  lemma {:induction false} SummaryRangeDefault(currentYear: int, currentMonth: int, day: int)
    requires currentYear >= 100 && 1 <= currentMonth <= 12
    ensures Contains(SummaryRange(None, None, currentYear, currentMonth), Midnight(day)) <==>
      DayNumber(currentYear, currentMonth, 1) <= day <= DayNumber(currentYear, currentMonth, DaysInMonth(currentYear, currentMonth))
  {
    assert SummaryMonth(None, None, currentYear, currentMonth) == (currentYear, currentMonth - 1);
    MonthRangeOfMonth(currentYear, currentMonth, day);
  }

  /** The history filter (`getMyHistory`): a month range only when both month and year are given. */
  function HistoryRange(month: Option<int>, year: Option<int>): (r: Option<Interval>)
    ensures r.Some? <==> month.Some? && year.Some?
    ensures r.Some? ==> r.value == MonthRange(year.value, month.value - 1)
  {
    if month.Some? && year.Some? then Some(MonthRange(year.value, month.value - 1)) else None
  }
}

/**
 * The manager's attendance listing and CSV export: a query built from the
 * optional request parameters, the records it selects, and the rows of the
 * exported file.
 */
module Queries {
  import opened Wrappers
  import opened Calendar
  import opened Schema

  /**
   * The conditions of an attendance query; an absent field does not filter.
   * The range is an interval of local seconds (see Calendar.Interval), the
   * unit the record's day is compared in, not the milliseconds of check-in
   * and check-out instants.
   */
  datatype Query = Query(userId: Option<UserId>, range: Option<Interval>, status: Option<string>)

  /** `User.findOne({ employeeId })`: the first user carrying that employee ID. */
  function FindByEmployeeId(users: seq<User>, employeeId: string): (r: Option<User>)
    ensures r.Some? ==> r.value in users && r.value.employeeId == employeeId
    ensures r.None? ==> forall k :: 0 <= k < |users| ==> users[k].employeeId != employeeId
  {
    if users == [] then None
    else if users[0].employeeId == employeeId then Some(users[0])
    else FindByEmployeeId(users[1..], employeeId)
  }

  /** A query-string parameter counts only when given and not empty. */
  predicate Given(p: Option<string>) {
    p.Some? && p.value != ""
  }

  /**
   * The query the parameters describe. `startDate` and `endDate` are the
   * instants the two date parameters denote, in local seconds since
   * 1970-01-01 (the unit of `Midnight`), and the range applies only when
   * both are given.
   */
  function QueryOf(users: seq<User>, employeeId: Option<string>, startDate: Option<int>, endDate: Option<int>,
                   status: Option<string>): (q: Query)
    ensures q.userId.Some? <==> Given(employeeId) && FindByEmployeeId(users, employeeId.value).Some?
    ensures q.userId.Some? ==> q.userId.value == FindByEmployeeId(users, employeeId.value).value.id
    ensures q.range.Some? <==> startDate.Some? && endDate.Some?
    ensures q.range.Some? ==> q.range.value == Interval(startDate.value, endDate.value)
    ensures q.status.Some? <==> Given(status)
    ensures q.status.Some? ==> q.status.value == status.value
  {
    var userId := if Given(employeeId) then
                    match FindByEmployeeId(users, employeeId.value)
                    case Some(u) => Some(u.id)
                    case None => None
                  else None;
    var range := if startDate.Some? && endDate.Some? then Some(Interval(startDate.value, endDate.value)) else None;
    var st := if Given(status) then status else None;
    Query(userId, range, st)
  }

  /** The query object of `getAllAttendance`, filled in one condition at a time. */
  method BuildQuery(users: seq<User>, employeeId: Option<string>, startDate: Option<int>, endDate: Option<int>,
                    status: Option<string>) returns (query: Query)
    ensures query == QueryOf(users, employeeId, startDate, endDate, status)
  {
    query := Query(None, None, None);
    if Given(employeeId) {
      var user := FindByEmployeeId(users, employeeId.value);
      if user.Some? {
        query := query.(userId := Some(user.value.id));
      }
    }
    if startDate.Some? && endDate.Some? {
      query := query.(range := Some(Interval(startDate.value, endDate.value)));
    }
    if Given(status) {
      query := query.(status := status);
    }
  }

  /** A record matches when its day's local midnight, in seconds, lies in the range. */
  predicate Matches(q: Query, r: Record) {
    && (q.userId.Some? ==> r.userId == q.userId.value)
    && (q.range.Some? ==> Contains(q.range.value, Midnight(r.day)))
    && (q.status.Some? ==> StatusName(r.status) == q.status.value)
  }

  /** `Attendance.find(query)`, in store order. */
  function Find(q: Query, rows: seq<Record>): (r: seq<Record>)
    ensures |r| <= |rows|
    ensures forall x :: x in r <==> x in rows && Matches(q, x)
  {
    if rows == [] then []
    else
      var x := rows[|rows| - 1];
      Find(q, rows[..|rows| - 1]) + (if Matches(q, x) then [x] else [])
  }

  /**
   * The listing keeps order and multiplicity: it distributes over
   * concatenation.
   */
  lemma {:induction false} FindConcat(q: Query, a: seq<Record>, b: seq<Record>)
    ensures Find(q, a + b) == Find(q, a) + Find(q, b)
  {
    if b == [] {
      assert a + b == a;
    } else {
      assert (a + b)[..|a + b| - 1] == a + b[..|b| - 1];
      FindConcat(q, a, b[..|b| - 1]);
    }
  }

  /** A single record is listed exactly when it matches. */
  lemma FindOne(q: Query, x: Record)
    ensures Find(q, [x]) == if Matches(q, x) then [x] else []
  {
    assert [x][..0] == [];
  }

  /** An employee ID nobody carries is dropped: the listing is the same as without it. */
  lemma UnknownEmployeeDropped(users: seq<User>, rows: seq<Record>, employeeId: string,
                               startDate: Option<int>, endDate: Option<int>, status: Option<string>)
    requires FindByEmployeeId(users, employeeId).None?
    ensures Find(QueryOf(users, Some(employeeId), startDate, endDate, status), rows)
         == Find(QueryOf(users, None, startDate, endDate, status), rows)
  {
  }

  /** A date range with only one end given does not filter. */
  lemma HalfOpenRangeIgnored(users: seq<User>, rows: seq<Record>, employeeId: Option<string>,
                             startDate: Option<int>, status: Option<string>)
    ensures Find(QueryOf(users, employeeId, startDate, None, status), rows)
         == Find(QueryOf(users, employeeId, None, None, status), rows)
    ensures Find(QueryOf(users, employeeId, None, startDate, status), rows)
         == Find(QueryOf(users, employeeId, None, None, status), rows)
  {
  }

  /** With no parameters every record is listed. */
  lemma {:induction false} NoFilters(users: seq<User>, rows: seq<Record>)
    ensures Find(QueryOf(users, None, None, None, None), rows) == rows
  {
    if rows != [] {
      NoFilters(users, rows[..|rows| - 1]);
      assert rows[..|rows| - 1] + [rows[|rows| - 1]] == rows;
    }
  }

  // ---------------------------------------------------------------------
  // CSV export

  /** One line of the exported file; instants stay numbers (their locale formatting is not modelled). */
  datatype CsvRow = CsvRow(
    employeeId: string,
    name: string,
    email: string,
    department: string,
    day: Day,
    checkInTime: Option<int>,
    checkOutTime: Option<int>,
    status: string,
    totalHours: int)

  datatype ExportError = NoRecords

  function ExportMessage(e: ExportError): string {
    "No attendance records found for the selected criteria"
  }

  /** `value || 'N/A'` on a string field. */
  function OrNA(s: string): (r: string)
    ensures s == "" ==> r == "N/A"
    ensures s != "" ==> r == s
  {
    if s == "" then "N/A" else s
  }

  /** The row of one record; a user that cannot be populated shows 'N/A' everywhere. */
  function RowOf(users: seq<User>, r: Record): (row: CsvRow)
    ensures row.employeeId != "" && row.name != "" && row.email != "" && row.department != ""
    ensures FindUser(users, r.userId).Some? ==>
      var u := FindUser(users, r.userId).value;
      row.employeeId == OrNA(u.employeeId) && row.name == OrNA(u.name)
      && row.email == OrNA(u.email) && row.department == OrNA(u.department)
    ensures FindUser(users, r.userId).None? ==>
      row.employeeId == "N/A" && row.name == "N/A" && row.email == "N/A" && row.department == "N/A"
    ensures row.day == r.day && row.checkInTime == r.checkInTime && row.checkOutTime == r.checkOutTime
    ensures row.status == StatusName(r.status) && row.totalHours == r.totalHours
  {
    match FindUser(users, r.userId)
    case Some(u) => CsvRow(OrNA(u.employeeId), OrNA(u.name), OrNA(u.email), OrNA(u.department),
                           r.day, r.checkInTime, r.checkOutTime, StatusName(r.status), r.totalHours)
    case None => CsvRow("N/A", "N/A", "N/A", "N/A", r.day, r.checkInTime, r.checkOutTime,
                        StatusName(r.status), r.totalHours)
  }

  /** `exportAttendance`: the same filters as the listing but without status; nothing selected is an error. */
  function Export(users: seq<User>, rows: seq<Record>, employeeId: Option<string>, startDate: Option<int>,
                  endDate: Option<int>): (r: Result<seq<CsvRow>, ExportError>)
    ensures r.Failure? <==> forall x :: x in rows ==> !Matches(QueryOf(users, employeeId, startDate, endDate, None), x)
    ensures r.Success? ==> |r.value| == |Find(QueryOf(users, employeeId, startDate, endDate, None), rows)|
    ensures r.Success? ==> forall k :: 0 <= k < |r.value| ==>
      r.value[k] == RowOf(users, Find(QueryOf(users, employeeId, startDate, endDate, None), rows)[k])
  {
    var selected := Find(QueryOf(users, employeeId, startDate, endDate, None), rows);
    if selected == [] then Failure(NoRecords)
    else
      assert selected[0] in selected;
      Success(seq(|selected|, k requires 0 <= k < |selected| => RowOf(users, selected[k])))
  }

  /** The export lists exactly what the listing would with no status filter. */
  lemma ExportMatchesListing(users: seq<User>, rows: seq<Record>, employeeId: Option<string>,
                             startDate: Option<int>, endDate: Option<int>, status: Option<string>)
    requires !Given(status)
    ensures var listed := Find(QueryOf(users, employeeId, startDate, endDate, status), rows);
      match Export(users, rows, employeeId, startDate, endDate)
      case Failure(_) => listed == []
      case Success(csv) => |csv| == |listed| && forall k :: 0 <= k < |csv| ==> csv[k] == RowOf(users, listed[k])
  {
    assert QueryOf(users, employeeId, startDate, endDate, status) == QueryOf(users, employeeId, startDate, endDate, None);
  }
}

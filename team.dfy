/**
 * Today's status of the whole team (`getTodayStatusAll`): every employee
 * starts as absent and not checked in, and each of today's records
 * overlays the entry of its user, if that user is an employee.
 */
module TeamStatus {
  import opened Wrappers
  import opened Schema

  datatype TeamEntry = TeamEntry(
    id: UserId,
    name: string,
    email: string,
    employeeId: string,
    department: string,
    checkedIn: bool,
    checkedOut: bool,
    checkInTime: Option<int>,
    checkOutTime: Option<int>,
    status: Status)

  /** A populated record whose user document is missing makes `record.userId._id` throw. */
  datatype TeamError = DanglingUser

  function DefaultEntry(e: User): (t: TeamEntry) {
    TeamEntry(e.id, e.name, e.email, e.employeeId, e.department, false, false, None, None, Absent)
  }

  /** The fields of an entry that a record overwrites. */
  function Overlay(t: TeamEntry, r: Record): TeamEntry {
    t.(checkedIn := r.checkInTime.Some?, checkedOut := r.checkOutTime.Some?,
       checkInTime := r.checkInTime, checkOutTime := r.checkOutTime, status := r.status)
  }

  /** The entry of employee e after the records are applied in order. */
  function EntryFor(e: User, todays: seq<Record>): (t: TeamEntry)
    ensures t.id == e.id && t.name == e.name && t.email == e.email
    ensures t.employeeId == e.employeeId && t.department == e.department
  {
    if todays == [] then DefaultEntry(e)
    else
      var prev := EntryFor(e, todays[..|todays| - 1]);
      var last := todays[|todays| - 1];
      if last.userId == e.id then Overlay(prev, last) else prev
  }

  /** Every record's user can be populated. */
  predicate Populated(users: seq<User>, todays: seq<Record>) {
    forall i :: 0 <= i < |todays| ==> FindUser(users, todays[i].userId).Some?
  }

  /** One entry per employee, in employee order. */
  function TeamStatusOf(users: seq<User>, todays: seq<Record>): (r: Result<seq<TeamEntry>, TeamError>)
    ensures r.Success? <==> Populated(users, todays)
    ensures r.Success? ==> |r.value| == |Employees(users)|
    ensures r.Success? ==> forall k :: 0 <= k < |r.value| ==>
      var e := Employees(users)[k];
      && r.value[k].id == e.id && r.value[k].name == e.name && r.value[k].email == e.email
      && r.value[k].employeeId == e.employeeId && r.value[k].department == e.department
  {
    if !Populated(users, todays) then Failure(DanglingUser)
    else
      var emps := Employees(users);
      Success(seq(|emps|, k requires 0 <= k < |emps| => EntryFor(emps[k], todays)))
  }

  /** The first `forEach`: one default entry per employee, keyed by id. */
  method DefaultEntries(employees: seq<User>) returns (entries: map<UserId, TeamEntry>)
    requires DistinctIds(employees)
    ensures forall k :: 0 <= k < |employees| ==>
      employees[k].id in entries && entries[employees[k].id] == DefaultEntry(employees[k])
    ensures entries.Keys == set k | 0 <= k < |employees| :: employees[k].id
  {
    entries := map[];
    for i := 0 to |employees|
      invariant forall k :: 0 <= k < i ==>
        employees[k].id in entries && entries[employees[k].id] == DefaultEntry(employees[k])
      invariant entries.Keys == set k | 0 <= k < i :: employees[k].id
    {
      entries := entries[employees[i].id := DefaultEntry(employees[i])];
    }
  }

  method TeamTodayStatus(users: seq<User>, todays: seq<Record>) returns (result: Result<seq<TeamEntry>, TeamError>)
    requires DistinctIds(users)
    ensures result == TeamStatusOf(users, todays)
  {
    var employees := Employees(users);
    EmployeesDistinct(users);
    var entries: map<UserId, TeamEntry> := DefaultEntries(employees);
    for j := 0 to |todays|
      invariant forall k :: 0 <= k < |employees| ==>
        employees[k].id in entries && entries[employees[k].id] == EntryFor(employees[k], todays[..j])
      invariant forall k :: 0 <= k < j ==> FindUser(users, todays[k].userId).Some?
    {
      var record := todays[j];
      if FindUser(users, record.userId).None? {
        assert !Populated(users, todays);
        return Failure(DanglingUser);
      }
      ghost var before := entries;
      if record.userId in entries {
        entries := entries[record.userId := Overlay(entries[record.userId], record)];
      }
      OverlayStep(employees, todays, j, before, entries);
    }
    assert todays[..|todays|] == todays;
    var values := seq(|employees|, k requires 0 <= k < |employees| => entries[employees[k].id]);
    Collected(users, todays, entries, values);
    result := Success(values);
  }

  /** Reading the entries back in employee order gives the team status once every record is applied. */
  lemma Collected(users: seq<User>, todays: seq<Record>, entries: map<UserId, TeamEntry>, values: seq<TeamEntry>)
    requires Populated(users, todays)
    requires |values| == |Employees(users)|
    requires forall k :: 0 <= k < |values| ==>
      Employees(users)[k].id in entries && values[k] == entries[Employees(users)[k].id]
      && entries[Employees(users)[k].id] == EntryFor(Employees(users)[k], todays)
    ensures TeamStatusOf(users, todays) == Success(values)
  {
    var emps := Employees(users);
    assert values == seq(|emps|, k requires 0 <= k < |emps| => EntryFor(emps[k], todays));
  }

  // ---------------------------------------------------------------------
  // Lemmas

  /** Applying one more record overlays the entry only when the record is the employee's. */
  lemma EntryStep(e: User, todays: seq<Record>, j: nat)
    requires j < |todays|
    ensures EntryFor(e, todays[..j + 1]) ==
      if todays[j].userId == e.id then Overlay(EntryFor(e, todays[..j]), todays[j]) else EntryFor(e, todays[..j])
  {
    assert todays[..j + 1][..j] == todays[..j];
  }

  /** The loop's map of entries stays the entries of the records applied so far. */
  lemma OverlayStep(employees: seq<User>, todays: seq<Record>, j: nat,
                    before: map<UserId, TeamEntry>, after: map<UserId, TeamEntry>)
    requires j < |todays|
    requires forall k :: 0 <= k < |employees| ==>
      employees[k].id in before && before[employees[k].id] == EntryFor(employees[k], todays[..j])
    requires after == if todays[j].userId in before
      then before[todays[j].userId := Overlay(before[todays[j].userId], todays[j])] else before
    ensures forall k :: 0 <= k < |employees| ==>
      employees[k].id in after && after[employees[k].id] == EntryFor(employees[k], todays[..j + 1])
  {
    forall k | 0 <= k < |employees|
      ensures employees[k].id in after && after[employees[k].id] == EntryFor(employees[k], todays[..j + 1])
    {
      EntryStep(employees[k], todays, j);
    }
  }

  /** An employee without a record today is absent and neither checked in nor out. */
  lemma {:induction false} EntryWithoutRecord(e: User, todays: seq<Record>)
    requires forall r :: r in todays ==> r.userId != e.id
    ensures EntryFor(e, todays) == DefaultEntry(e)
    ensures !EntryFor(e, todays).checkedIn && !EntryFor(e, todays).checkedOut
    ensures EntryFor(e, todays).status == Absent
  {
    if todays != [] {
      assert forall r :: r in todays[..|todays| - 1] ==> r in todays;
      EntryWithoutRecord(e, todays[..|todays| - 1]);
    }
  }

  /**
   * An employee's entry is the default overlaid by that employee's last
   * record of the day; records of other users change nothing.
   */
  lemma {:induction false} EntryFromLastRecord(e: User, todays: seq<Record>, j: nat)
    requires j < |todays| && todays[j].userId == e.id
    requires forall k :: j < k < |todays| ==> todays[k].userId != e.id
    ensures EntryFor(e, todays) == Overlay(DefaultEntry(e), todays[j])
    ensures EntryFor(e, todays).checkedIn <==> todays[j].checkInTime.Some?
    ensures EntryFor(e, todays).checkedOut <==> todays[j].checkOutTime.Some?
    ensures EntryFor(e, todays).status == todays[j].status
  {
    if j == |todays| - 1 {
    } else {
      EntryFromLastRecord(e, todays[..|todays| - 1], j);
    }
  }

  /** Records of users that are not in the employee list never add an entry nor change one. */
  lemma {:induction false} ForeignRecordsIgnored(users: seq<User>, todays: seq<Record>, r: Record)
    requires Populated(users, todays + [r]) && FindUser(Employees(users), r.userId).None?
    ensures TeamStatusOf(users, todays + [r]) == TeamStatusOf(users, todays)
  {
    var emps := Employees(users);
    assert Populated(users, todays) by {
      forall i | 0 <= i < |todays| ensures FindUser(users, todays[i].userId).Some? {
        assert (todays + [r])[i] == todays[i];
      }
    }
    forall k | 0 <= k < |emps| ensures EntryFor(emps[k], todays + [r]) == EntryFor(emps[k], todays) {
      assert (todays + [r])[..|todays + [r]| - 1] == todays;
    }
    assert seq(|emps|, k requires 0 <= k < |emps| => EntryFor(emps[k], todays + [r]))
        == seq(|emps|, k requires 0 <= k < |emps| => EntryFor(emps[k], todays));
  }
}

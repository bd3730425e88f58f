/**
 * The attendance record schema and the user reference data it is joined with.
 * A record belongs to one user and one local calendar day; the store keeps
 * at most one record per (user, day), which the model makes structural by
 * keying the store on that pair.
 */
module Schema {
  import opened Wrappers

  /** Identifier of a user document (the `_id` that records reference). */
  type UserId = nat

  /** Day number of a record's date, the local midnight it is normalised to. */
  type Day = int

  /** The status enum of the schema. */
  datatype Status = Present | Absent | Late | HalfDay

  function StatusName(s: Status): string {
    match s
    case Present => "present"
    case Absent => "absent"
    case Late => "late"
    case HalfDay => "half-day"
  }

  /** Enum validation: a status string is accepted iff it is one of the four names. */
  function ParseStatus(name: string): (r: Option<Status>)
    ensures r.Some? ==> StatusName(r.value) == name
    ensures r.None? ==> forall s: Status :: StatusName(s) != name
  {
    if name == "present" then Some(Present)
    else if name == "absent" then Some(Absent)
    else if name == "late" then Some(Late)
    else if name == "half-day" then Some(HalfDay)
    else None
  }

  /**
   * One attendance document. Instants are milliseconds since the epoch;
   * totalHours is in hundredths of an hour.
   */
  datatype Record = Record(
    userId: UserId,
    day: Day,
    checkInTime: Option<int>,
    checkOutTime: Option<int>,
    status: Status,
    totalHours: int)

  /** A new document with only the required fields given: the schema defaults apply. */
  function NewRecord(userId: UserId, day: Day): (r: Record)
    ensures r.userId == userId && r.day == day
    ensures r.checkInTime.None? && r.checkOutTime.None?
    ensures r.status == Absent && r.totalHours == 0
  {
    Record(userId, day, None, None, Absent, 0)
  }

  /** The key of the unique compound index. */
  type Key = (UserId, Day)

  function KeyOf(r: Record): Key {
    (r.userId, r.day)
  }

  /** The attendance collection, indexed by its unique (userId, date) key. */
  type Store = map<Key, Record>

  /** Every record is filed under its own key. */
  ghost predicate Consistent(m: Store) {
    forall k :: k in m ==> KeyOf(m[k]) == k
  }

  /** In a consistent store no two distinct stored records share a (userId, date) pair. */
  lemma UniqueIndex(m: Store, a: Key, b: Key)
    requires Consistent(m) && a in m && b in m
    requires m[a].userId == m[b].userId && m[a].day == m[b].day
    ensures a == b && m[a] == m[b]
  {
  }

  /** The query `date: { $gte: day, $lt: day + 24h }`: the records dated on a day, in store order. */
  function OnDay(rows: seq<Record>, day: Day): (r: seq<Record>)
    ensures |r| <= |rows|
    ensures forall x :: x in r <==> x in rows && x.day == day
  {
    if rows == [] then []
    else OnDay(rows[..|rows| - 1], day) + (if rows[|rows| - 1].day == day then [rows[|rows| - 1]] else [])
  }

  /**
   * The day filter keeps order and multiplicity: it distributes over
   * concatenation.
   */
  lemma {:induction false} OnDayConcat(a: seq<Record>, b: seq<Record>, day: Day)
    ensures OnDay(a + b, day) == OnDay(a, day) + OnDay(b, day)
  {
    if b == [] {
      assert a + b == a;
    } else {
      assert (a + b)[..|a + b| - 1] == a + b[..|b| - 1];
      OnDayConcat(a, b[..|b| - 1], day);
    }
  }

  /** A single record is kept exactly when it is dated that day. */
  lemma OnDayOne(x: Record, day: Day)
    ensures OnDay([x], day) == if x.day == day then [x] else []
  {
    assert [x][..0] == [];
  }

  datatype Role = Employee | Manager

  /** The user fields the controllers read; an empty string is a missing field. */
  datatype User = User(
    id: UserId,
    name: string,
    email: string,
    employeeId: string,
    department: string,
    role: Role)

  /** `populate('userId')`: the first user with the given id, if any. */
  function FindUser(users: seq<User>, id: UserId): (r: Option<User>)
    ensures r.Some? ==> r.value.id == id && exists k :: 0 <= k < |users| && users[k] == r.value
    ensures r.None? ==> forall k :: 0 <= k < |users| ==> users[k].id != id
  {
    if users == [] then None
    else if users[0].id == id then Some(users[0])
    else FindUser(users[1..], id)
  }

  /** `User.find({ role: 'employee' })`, in collection order. */
  function Employees(users: seq<User>): (r: seq<User>)
    ensures |r| <= |users|
    ensures forall u :: u in r <==> u in users && u.role == Employee
  {
    if users == [] then []
    else (if users[0].role == Employee then [users[0]] else []) + Employees(users[1..])
  }

  /**
   * The role filter keeps order and multiplicity: it distributes over
   * concatenation.
   */
  lemma {:induction false} EmployeesConcat(a: seq<User>, b: seq<User>)
    ensures Employees(a + b) == Employees(a) + Employees(b)
  {
    if a == [] {
      assert a + b == b;
    } else {
      assert (a + b)[1..] == a[1..] + b;
      EmployeesConcat(a[1..], b);
    }
  }

  /** A single user is kept exactly when an employee. */
  lemma EmployeesOne(u: User)
    ensures Employees([u]) == if u.role == Employee then [u] else []
  {
    assert [u][1..] == [];
  }

  /** User ids are the primary key of the users collection. */
  predicate DistinctIds(users: seq<User>) {
    forall i, j :: 0 <= i < j < |users| ==> users[i].id != users[j].id
  }

  lemma {:induction false} EmployeesDistinct(users: seq<User>)
    requires DistinctIds(users)
    ensures DistinctIds(Employees(users))
  {
    if users != [] {
      EmployeesDistinct(users[1..]);
      var rest := Employees(users[1..]);
      assert forall u :: u in rest ==> u in users[1..];
      assert forall j :: 1 <= j < |users| ==> users[0].id != users[j].id;
    }
  }
}

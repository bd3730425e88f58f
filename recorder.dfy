/**
 * The attendance recorder: check-in, check-out and today's status for one
 * user, over the attendance store. "Now" is supplied by the caller as the
 * local calendar date, the local hour and minute, and the instant in
 * milliseconds since the epoch.
 */
module Recorder {
  import opened Wrappers
  import opened Calendar
  import opened Schema

  const MillisPerHour := 3600000

  /** A reading of the clock. */
  datatype Now = Now(year: int, month: int, date: int, hour: int, minute: int, epochMs: int)

  predicate ValidNow(now: Now) {
    && 1 <= now.month <= 12
    && 1 <= now.date <= DaysInMonth(now.year, now.month)
    && 0 <= now.hour < 24
    && 0 <= now.minute < 60
  }

  /** Today's date (`setHours(0, 0, 0, 0)`) as a day number. */
  function Today(now: Now): Day
    requires ValidNow(now)
  {
    DayNumber(now.year, now.month, now.date)
  }

  datatype RecorderError = AlreadyCheckedIn | NotCheckedIn | AlreadyCheckedOut

  function Message(e: RecorderError): string {
    match e
    case AlreadyCheckedIn => "Already checked in today"
    case NotCheckedIn => "Please check in first"
    case AlreadyCheckedOut => "Already checked out today"
  }

  /** The check-in status: late strictly after 09:30, present otherwise. */
  function CheckInStatus(hour: int, minute: int): Status {
    if hour > 9 || (hour == 9 && minute > 30) then Late else Present
  }

  /**
   * `toFixed(2)` of a duration in hours, given in milliseconds, as integer
   * hundredths: the magnitude is rounded half up and the sign kept.
   */
  function HundredthsOfHour(ms: int): int {
    if ms >= 0 then (ms + 18000) / 36000 else -((-ms + 18000) / 36000)
  }

  /**
   * Check-in against the store: fails when today's record already has a
   * check-in time; otherwise fills in the existing placeholder of today or
   * creates today's record, and files it under its key.
   */
  function CheckInStep(m: Store, user: UserId, now: Now): (out: (Result<Record, RecorderError>, Store))
    requires Consistent(m) && ValidNow(now)
    ensures Consistent(out.1)
    ensures var key := (user, Today(now));
      && (out.0.Failure? <==> key in m && m[key].checkInTime.Some?)
      && (out.0.Failure? ==> out.0.error == AlreadyCheckedIn && out.1 == m)
      && (out.0.Success? ==>
            && out.1 == m[key := out.0.value]
            && KeyOf(out.0.value) == key
            && out.0.value.checkInTime == Some(now.epochMs)
            && out.0.value.status == CheckInStatus(now.hour, now.minute)
            && (key in m ==> out.0.value.checkOutTime == m[key].checkOutTime
                             && out.0.value.totalHours == m[key].totalHours)
            && (key !in m ==> out.0.value.checkOutTime.None? && out.0.value.totalHours == 0))
  {
    var key := (user, Today(now));
    if key in m && m[key].checkInTime.Some? then
      (Failure(AlreadyCheckedIn), m)
    else
      var status := CheckInStatus(now.hour, now.minute);
      var base := if key in m then m[key] else NewRecord(user, Today(now));
      var rec := base.(checkInTime := Some(now.epochMs), status := status);
      (Success(rec), m[key := rec])
  }

  /**
   * Check-out against the store: fails without today's check-in or after
   * today's check-out; otherwise records the check-out time and the rounded
   * hours, and turns the status into half-day when under four hours.
   */
  function CheckOutStep(m: Store, user: UserId, now: Now): (out: (Result<Record, RecorderError>, Store))
    requires Consistent(m) && ValidNow(now)
    ensures Consistent(out.1)
    ensures var key := (user, Today(now));
      && (out.0.Failure? <==> key !in m || m[key].checkInTime.None? || m[key].checkOutTime.Some?)
      && (out.0.Failure? ==> out.1 == m)
      && (out.0 == Failure(NotCheckedIn) <==> key !in m || m[key].checkInTime.None?)
      && (out.0 == Failure(AlreadyCheckedOut) <==>
            key in m && m[key].checkInTime.Some? && m[key].checkOutTime.Some?)
      && (out.0.Success? ==>
            var old_ := m[key];
            var elapsed := now.epochMs - old_.checkInTime.value;
            && out.1 == m[key := out.0.value]
            && out.0.value == old_.(checkOutTime := out.0.value.checkOutTime,
                                    totalHours := out.0.value.totalHours,
                                    status := out.0.value.status)
            && out.0.value.checkOutTime == Some(now.epochMs)
            && out.0.value.totalHours == HundredthsOfHour(elapsed)
            && (out.0.value.status == HalfDay <==> elapsed < 4 * MillisPerHour || old_.status == HalfDay)
            && (elapsed >= 4 * MillisPerHour ==> out.0.value.status == old_.status))
  {
    var key := (user, Today(now));
    if key !in m || m[key].checkInTime.None? then
      (Failure(NotCheckedIn), m)
    else if m[key].checkOutTime.Some? then
      (Failure(AlreadyCheckedOut), m)
    else
      var rec := m[key];
      var elapsed := now.epochMs - rec.checkInTime.value;
      var status := if elapsed < 4 * MillisPerHour then HalfDay else rec.status;
      var done := rec.(checkOutTime := Some(now.epochMs),
                       totalHours := HundredthsOfHour(elapsed),
                       status := status);
      (Success(done), m[key := done])
  }

  /** The response of the today endpoint. */
  datatype TodayView = TodayView(
    checkedIn: bool,
    checkedOut: bool,
    checkInTime: Option<int>,
    checkOutTime: Option<int>,
    status: Status,
    totalHours: Option<int>)

  /** Today's view of a user: a synthesised absent view when there is no record. */
  function ViewOf(rec: Option<Record>): (v: TodayView)
    ensures rec.None? ==> !v.checkedIn && !v.checkedOut && v.status == Absent
                          && v.checkInTime.None? && v.checkOutTime.None? && v.totalHours.None?
    ensures rec.Some? ==> && (v.checkedIn <==> rec.value.checkInTime.Some?)
                          && (v.checkedOut <==> rec.value.checkOutTime.Some?)
                          && v.checkInTime == rec.value.checkInTime
                          && v.checkOutTime == rec.value.checkOutTime
                          && v.status == rec.value.status
                          && v.totalHours == Some(rec.value.totalHours)
  {
    match rec
    case None => TodayView(false, false, None, None, Absent, None)
    case Some(r) => TodayView(r.checkInTime.Some?, r.checkOutTime.Some?, r.checkInTime,
                              r.checkOutTime, r.status, Some(r.totalHours))
  }

  function Lookup(m: Store, key: Key): Option<Record> {
    if key in m then Some(m[key]) else None
  }

  /** The attendance collection as the controllers see it. */
  class AttendanceStore {
    var records: Store

    ghost predicate Valid()
      reads this
    {
      Consistent(records)
    }

    constructor ()
      ensures Valid() && records == map[]
    {
      records := map[];
    }

    method CheckIn(user: UserId, now: Now) returns (result: Result<Record, RecorderError>)
      requires Valid() && ValidNow(now)
      modifies this
      ensures Valid()
      ensures (result, records) == CheckInStep(old(records), user, now)
    {
      var today := DayNumber(now.year, now.month, now.date);
      var key := (user, today);
      if key in records && records[key].checkInTime.Some? {
        return Failure(AlreadyCheckedIn);
      }
      var status := Present;
      if now.hour > 9 || (now.hour == 9 && now.minute > 30) {
        status := Late;
      }
      var rec: Record;
      if key in records {
        rec := records[key].(checkInTime := Some(now.epochMs), status := status);
      } else {
        rec := NewRecord(user, today).(checkInTime := Some(now.epochMs), status := status);
      }
      records := records[key := rec];
      result := Success(rec);
    }

    method CheckOut(user: UserId, now: Now) returns (result: Result<Record, RecorderError>)
      requires Valid() && ValidNow(now)
      modifies this
      ensures Valid()
      ensures (result, records) == CheckOutStep(old(records), user, now)
    {
      var key := (user, DayNumber(now.year, now.month, now.date));
      if key !in records || records[key].checkInTime.None? {
        return Failure(NotCheckedIn);
      }
      if records[key].checkOutTime.Some? {
        return Failure(AlreadyCheckedOut);
      }
      var rec := records[key];
      var elapsed := now.epochMs - rec.checkInTime.value;
      var status := rec.status;
      if elapsed < 4 * MillisPerHour {
        status := HalfDay;
      }
      rec := rec.(checkOutTime := Some(now.epochMs), totalHours := HundredthsOfHour(elapsed), status := status);
      records := records[key := rec];
      result := Success(rec);
    }

    /** A read-only view: the store is not changed, so repeating it gives the same view. */
    method TodayStatus(user: UserId, now: Now) returns (view: TodayView)
      requires Valid() && ValidNow(now)
      ensures view == ViewOf(Lookup(records, (user, Today(now))))
    {
      var key := (user, DayNumber(now.year, now.month, now.date));
      if key !in records {
        return TodayView(false, false, None, None, Absent, None);
      }
      var rec := records[key];
      view := TodayView(rec.checkInTime.Some?, rec.checkOutTime.Some?, rec.checkInTime,
                        rec.checkOutTime, rec.status, Some(rec.totalHours));
    }
  }

  // ---------------------------------------------------------------------
  // Lemmas

  /** 09:30 is the last minute that counts as on time, in minutes of the day. */
  lemma LateAfterNineThirty(hour: int, minute: int)
    requires 0 <= hour < 24 && 0 <= minute < 60
    ensures CheckInStatus(hour, minute) == Late <==> hour * 60 + minute > 9 * 60 + 30
    ensures CheckInStatus(9, 30) == Present && CheckInStatus(9, 31) == Late
  {
  }

  /** The rounding is within half a hundredth of the exact duration. */
  lemma HundredthsClose(ms: int)
    ensures ms >= 0 ==> HundredthsOfHour(ms) * 36000 - 18000 <= ms < HundredthsOfHour(ms) * 36000 + 18000
    ensures HundredthsOfHour(-ms) == -HundredthsOfHour(ms)
  {
  }

  /** A second check-in on the same day fails and leaves the store as the first one left it. */
  lemma CheckInTwice(m: Store, user: UserId, first: Now, second: Now)
    requires Consistent(m) && ValidNow(first) && ValidNow(second)
    requires Today(first) == Today(second)
    requires CheckInStep(m, user, first).0.Success?
    ensures var m1 := CheckInStep(m, user, first).1;
      CheckInStep(m1, user, second) == (Failure(AlreadyCheckedIn), m1)
  {
  }

  /** Check-out on a day without a record is refused with "Please check in first". */
  lemma CheckOutWithoutCheckIn(m: Store, user: UserId, now: Now)
    requires Consistent(m) && ValidNow(now) && (user, Today(now)) !in m
    ensures CheckOutStep(m, user, now) == (Failure(NotCheckedIn), m)
  {
  }

  /** After a successful check-out, a second check-out on the same day is refused. */
  lemma CheckOutTwice(m: Store, user: UserId, first: Now, second: Now)
    requires Consistent(m) && ValidNow(first) && ValidNow(second)
    requires Today(first) == Today(second)
    requires CheckOutStep(m, user, first).0.Success?
    ensures var m1 := CheckOutStep(m, user, first).1;
      CheckOutStep(m1, user, second) == (Failure(AlreadyCheckedOut), m1)
  {
  }

  /** After check-out, check-in on the same day is also refused. */
  lemma CheckInAfterCheckOut(m: Store, user: UserId, first: Now, second: Now)
    requires Consistent(m) && ValidNow(first) && ValidNow(second)
    requires Today(first) == Today(second)
    requires CheckOutStep(m, user, first).0.Success?
    ensures var m1 := CheckOutStep(m, user, first).1;
      CheckInStep(m1, user, second) == (Failure(AlreadyCheckedIn), m1)
  {
  }

  /** A record created by check-in and closed by check-out at the given times. */
  function CheckInThenOut(user: UserId, checkIn: Now, checkOut: Now): Result<Record, RecorderError>
    requires ValidNow(checkIn) && ValidNow(checkOut)
  {
    var m1 := CheckInStep(map[], user, checkIn).1;
    CheckOutStep(m1, user, checkOut).0
  }

  /** In at 09:00, out at 09:30 the same day: half-day, 0.50 hours. */
  lemma HalfHourIsHalfDay(user: UserId, base: int)
    ensures var checkIn := Now(2024, 3, 4, 9, 0, base);
            var checkOut := Now(2024, 3, 4, 9, 30, base + 30 * 60000);
      && CheckInThenOut(user, checkIn, checkOut).Success?
      && CheckInThenOut(user, checkIn, checkOut).value.status == HalfDay
      && CheckInThenOut(user, checkIn, checkOut).value.totalHours == 50
  {
    var checkIn := Now(2024, 3, 4, 9, 0, base);
    var checkOut := Now(2024, 3, 4, 9, 30, base + 30 * 60000);
    var m1 := CheckInStep(map[], user, checkIn).1;
    assert (user, Today(checkIn)) in m1;
  }

  /** In at 09:45, out at 18:00 the same day: stays late, 8.25 hours. */
  lemma LateFullDay(user: UserId, base: int)
    ensures var checkIn := Now(2024, 3, 4, 9, 45, base);
            var checkOut := Now(2024, 3, 4, 18, 0, base + (8 * 60 + 15) * 60000);
      && CheckInThenOut(user, checkIn, checkOut).Success?
      && CheckInThenOut(user, checkIn, checkOut).value.status == Late
      && CheckInThenOut(user, checkIn, checkOut).value.totalHours == 825
  {
    var checkIn := Now(2024, 3, 4, 9, 45, base);
    var checkOut := Now(2024, 3, 4, 18, 0, base + (8 * 60 + 15) * 60000);
    var m1 := CheckInStep(map[], user, checkIn).1;
    assert (user, Today(checkIn)) in m1;
  }

  /**
   * The half-day test uses the unrounded duration: one millisecond short of
   * four hours rounds to 4.00 hours and is still a half-day.
   */
  lemma HalfDayUsesUnroundedHours(user: UserId, base: int)
    ensures var checkIn := Now(2024, 3, 4, 9, 0, base);
            var checkOut := Now(2024, 3, 4, 12, 59, base + 4 * MillisPerHour - 1);
      && CheckInThenOut(user, checkIn, checkOut).Success?
      && CheckInThenOut(user, checkIn, checkOut).value.status == HalfDay
      && CheckInThenOut(user, checkIn, checkOut).value.totalHours == 400
  {
    var checkIn := Now(2024, 3, 4, 9, 0, base);
    var m1 := CheckInStep(map[], user, checkIn).1;
    assert (user, Today(checkIn)) in m1;
  }
}
